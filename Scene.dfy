/**
 * The scene: the orchestrator that owns an entity registry, a component
 * registry and the systems. Every facade call that touches components moves
 * an entity's mask and the pools together, so that an identifier holds a
 * component of a registered type exactly when its mask has that type's bit.
 * Systems are kept sorted by ascending priority, with an index from each
 * system tag to its position, and one update pass runs the enabled systems
 * in that order.
 */
module Scene {
  import opened Types
  import opened Systems
  import EM = EntityManager
  import CM = ComponentManager

  // ---------------------------------------------------------------------
  // Masks and pools in step.
  // ---------------------------------------------------------------------

  /** The type masks are non-empty and pairwise disjoint. */
  ghost predicate Bits(maskMap: seq<EntityMask>)
  {
    && (forall k :: 0 <= k < |maskMap| ==> maskMap[k] != NULL_MASK)
    && (forall i, j :: 0 <= i < |maskMap| && 0 <= j < |maskMap| && i != j ==> Disjoint(maskMap[i], maskMap[j]))
  }

  /** The masks of a type table are non-empty and pairwise disjoint. */
  lemma TableBits(maxID: ComponentTypeID, firstID: ComponentTypeID, nextID: ComponentTypeID,
                  idMap: map<CM.ComponentType, ComponentTypeID>, maskMap: seq<EntityMask>)
    requires CM.TypeTable(maxID, firstID, nextID, idMap, maskMap)
    ensures Bits(maskMap)
  {
    forall k | 0 <= k < |maskMap|
      ensures maskMap[k] != NULL_MASK
    {
      BitIsSingle(firstID + k);
    }
    forall i, j | 0 <= i < |maskMap| && 0 <= j < |maskMap| && i != j
      ensures Disjoint(maskMap[i], maskMap[j])
    {
      BitsDisjoint(firstID + i, firstID + j);
    }
  }

  /** Identifier `id` has a mask, and it shares a bit with the type mask `b`. */
  predicate Tagged(masks: seq<EntityMask>, id: EntityID, b: EntityMask)
  {
    id < |masks| && HasBit(masks[id], b)
  }

  /**
   * The pools are in step with the masks: identifier `id` is in the pool at
   * position `k` exactly when its mask has the bit of the type at `k`.
   */
  ghost predicate InStep<V>(masks: seq<EntityMask>, maskMap: seq<EntityMask>, stores: seq<map<EntityID, V>>)
  {
    && |stores| == |maskMap|
    && forall k: nat, id: EntityID :: k < |stores| ==> (id in stores[k] <==> Tagged(masks, id, maskMap[k]))
  }

  /** No entity mask has a bit at or above `next`, the identifier the next registered type gets. */
  ghost predicate Unclaimed(masks: seq<EntityMask>, next: nat)
  {
    forall id: EntityID, b: nat {:trigger HasBit(masks[id], Bit(b))} ::
      id < |masks| && next <= b < MASK_WIDTH ==> !HasBit(masks[id], Bit(b))
  }

  /** Registering a type with the unclaimed bit `next` and an empty pool keeps the masks and pools in step. */
  lemma RegisterSync<V>(masks: seq<EntityMask>, maskMap: seq<EntityMask>, stores: seq<map<EntityID, V>>,
                        next: nat)
    requires InStep(masks, maskMap, stores) && Unclaimed(masks, next) && next < MASK_WIDTH
    ensures InStep(masks, maskMap + [Bit(next)], stores + [map[]])
    ensures Unclaimed(masks, next + 1)
  {
    var maskMap', stores' := maskMap + [Bit(next)], stores + [map[]];
    forall k: nat, id: EntityID | k < |stores'|
      ensures id in stores'[k] <==> Tagged(masks, id, maskMap'[k])
    {
      if k < |maskMap| {
        assert stores'[k] == stores[k] && maskMap'[k] == maskMap[k];
      } else if id < |masks| {
        assert !HasBit(masks[id], Bit(next));
      }
    }
  }

  /**
   * Giving `id` the new mask `nm` keeps the masks and pools in step when the
   * pools change only at `id`, and hold `id` exactly where `nm` has the bit.
   */
  lemma ReplaceMask<V>(masks: seq<EntityMask>, maskMap: seq<EntityMask>, stores: seq<map<EntityID, V>>,
                       stores': seq<map<EntityID, V>>, id: EntityID, nm: EntityMask)
    requires InStep(masks, maskMap, stores) && id < |masks| && |stores'| == |stores|
    requires forall j: nat, x: EntityID :: j < |stores| && x != id ==> (x in stores'[j] <==> x in stores[j])
    requires forall j: nat :: j < |stores| ==> (id in stores'[j] <==> HasBit(nm, maskMap[j]))
    ensures InStep(masks[id := nm], maskMap, stores')
  {
    var masks' := masks[id := nm];
    forall j: nat, x: EntityID | j < |stores'|
      ensures x in stores'[j] <==> Tagged(masks', x, maskMap[j])
    {
      if x != id {
        assert x in stores'[j] <==> x in stores[j];
        assert Tagged(masks', x, maskMap[j]) == Tagged(masks, x, maskMap[j]);
        assert x in stores[j] <==> Tagged(masks, x, maskMap[j]);
      }
    }
  }

  /** Storing a component at position `k` and OR-ing in its bit keeps the masks and pools in step. */
  lemma AddSync<V>(masks: seq<EntityMask>, maskMap: seq<EntityMask>, stores: seq<map<EntityID, V>>,
                   k: nat, id: EntityID, v: V)
    requires InStep(masks, maskMap, stores) && Bits(maskMap) && k < |stores| && id < |masks|
    ensures var m: map<EntityID, V> := stores[k][id := v];
            InStep(masks[id := masks[id] | maskMap[k]], maskMap, stores[k := m])
  {
    var m: map<EntityID, V> := stores[k][id := v];
    AddAtId(masks, maskMap, stores, k, id, v);
    ReplaceMask(masks, maskMap, stores, stores[k := m], id, masks[id] | maskMap[k]);
  }

  /** After the add, `id` is in exactly the pools whose bits its new mask has. */
  lemma AddAtId<V>(masks: seq<EntityMask>, maskMap: seq<EntityMask>, stores: seq<map<EntityID, V>>,
                   k: nat, id: EntityID, v: V)
    requires InStep(masks, maskMap, stores) && Bits(maskMap) && k < |stores| && id < |masks|
    ensures var m: map<EntityID, V> := stores[k][id := v];
            forall j: nat :: j < |stores| ==> (id in stores[k := m][j] <==> HasBit(masks[id] | maskMap[k], maskMap[j]))
  {
    forall j: nat | j < |stores|
      ensures var m: map<EntityID, V> := stores[k][id := v];
              id in stores[k := m][j] <==> HasBit(masks[id] | maskMap[k], maskMap[j])
    {
      AddAtPool(masks, maskMap, stores, k, id, v, j);
    }
  }

  /** After the add, `id` is in the pool at `j` exactly when its new mask has that pool's bit. */
  lemma AddAtPool<V>(masks: seq<EntityMask>, maskMap: seq<EntityMask>, stores: seq<map<EntityID, V>>,
                   k: nat, id: EntityID, v: V, j: nat)
    requires InStep(masks, maskMap, stores) && Bits(maskMap) && k < |stores| && id < |masks| && j < |stores|
    ensures var m: map<EntityID, V> := stores[k][id := v];
            id in stores[k := m][j] <==> HasBit(masks[id] | maskMap[k], maskMap[j])
  {
    if j == k {
      OrBitSame(masks[id], maskMap, k);
    } else {
      OrBitOther(masks[id], maskMap, k, j);
      assert id in stores[j] <==> Tagged(masks, id, maskMap[j]);
    }
  }

  /** OR-ing in a type's bit sets it. */
  lemma OrBitSame(m: EntityMask, maskMap: seq<EntityMask>, k: nat)
    requires Bits(maskMap) && k < |maskMap|
    ensures HasBit(m | maskMap[k], maskMap[k])
  {
    OrSame(m, maskMap[k]);
  }

  /** The masks of two different types have no bit in common. */
  lemma PairDisjoint(maskMap: seq<EntityMask>, k: nat, j: nat)
    requires Bits(maskMap) && k < |maskMap| && j < |maskMap| && j != k
    ensures Disjoint(maskMap[k], maskMap[j])
  {
  }

  /** OR-ing in a type's bit leaves the bits of the other types as they were. */
  lemma OrBitOther(m: EntityMask, maskMap: seq<EntityMask>, k: nat, j: nat)
    requires Bits(maskMap) && k < |maskMap| && j < |maskMap| && j != k
    ensures HasBit(m | maskMap[k], maskMap[j]) == HasBit(m, maskMap[j])
  {
    PairDisjoint(maskMap, k, j);
    OrBitKeeps(m, maskMap, k, j);
    OrBitAddsNone(m, maskMap, k, j);
  }

  /** OR-ing in a type's bit clears no bit. */
  lemma OrBitKeeps(m: EntityMask, maskMap: seq<EntityMask>, k: nat, j: nat)
    requires k < |maskMap| && j < |maskMap|
    ensures HasBit(m, maskMap[j]) ==> HasBit(m | maskMap[k], maskMap[j])
  {
    OrMonotone(m, maskMap[k], maskMap[j]);
  }

  /** OR-ing in a type's bit sets no bit of a type with a disjoint mask. */
  lemma OrBitAddsNone(m: EntityMask, maskMap: seq<EntityMask>, k: nat, j: nat)
    requires k < |maskMap| && j < |maskMap| && Disjoint(maskMap[k], maskMap[j])
    ensures HasBit(m | maskMap[k], maskMap[j]) ==> HasBit(m, maskMap[j])
  {
    OrOther(m, maskMap[k], maskMap[j]);
  }

  /** OR-ing in the bit of a registered type claims no new bit. */
  lemma AddUnclaimed(masks: seq<EntityMask>, next: nat, id: EntityID, a: nat)
    requires Unclaimed(masks, next) && a < next && a < MASK_WIDTH && id < |masks|
    ensures Unclaimed(masks[id := masks[id] | Bit(a)], next)
  {
    var masks' := masks[id := masks[id] | Bit(a)];
    forall x: EntityID, b: nat | x < |masks'| && next <= b < MASK_WIDTH
      ensures !HasBit(masks'[x], Bit(b))
    {
      assert !HasBit(masks[x], Bit(b));
      if x == id {
        BitsDisjoint(a, b);
        OrOther(masks[id], Bit(a), Bit(b));
      }
    }
  }

  /** Dropping a component at position `k` and AND-ing out its bit keeps the masks and pools in step. */
  lemma RemoveSync<V>(masks: seq<EntityMask>, maskMap: seq<EntityMask>, stores: seq<map<EntityID, V>>,
                      k: nat, id: EntityID)
    requires InStep(masks, maskMap, stores) && Bits(maskMap) && k < |stores| && id < |masks|
    ensures var m: map<EntityID, V> := stores[k] - {id};
            InStep(masks[id := masks[id] & !maskMap[k]], maskMap, stores[k := m])
  {
    var m: map<EntityID, V> := stores[k] - {id};
    RemoveAtId(masks, maskMap, stores, k, id);
    ReplaceMask(masks, maskMap, stores, stores[k := m], id, masks[id] & !maskMap[k]);
  }

  /** After the removal, `id` is in exactly the pools whose bits its new mask has. */
  lemma RemoveAtId<V>(masks: seq<EntityMask>, maskMap: seq<EntityMask>, stores: seq<map<EntityID, V>>,
                   k: nat, id: EntityID)
    requires InStep(masks, maskMap, stores) && Bits(maskMap) && k < |stores| && id < |masks|
    ensures var m: map<EntityID, V> := stores[k] - {id};
            forall j: nat :: j < |stores| ==> (id in stores[k := m][j] <==> HasBit(masks[id] & !maskMap[k], maskMap[j]))
  {
    forall j: nat | j < |stores|
      ensures var m: map<EntityID, V> := stores[k] - {id};
              id in stores[k := m][j] <==> HasBit(masks[id] & !maskMap[k], maskMap[j])
    {
      RemoveAtPool(masks, maskMap, stores, k, id, j);
    }
  }

  /** After the removal, `id` is in the pool at `j` exactly when its new mask has that pool's bit. */
  lemma RemoveAtPool<V>(masks: seq<EntityMask>, maskMap: seq<EntityMask>, stores: seq<map<EntityID, V>>,
                   k: nat, id: EntityID, j: nat)
    requires InStep(masks, maskMap, stores) && Bits(maskMap) && k < |stores| && id < |masks| && j < |stores|
    ensures var m: map<EntityID, V> := stores[k] - {id};
            id in stores[k := m][j] <==> HasBit(masks[id] & !maskMap[k], maskMap[j])
  {
    if j == k {
      AndNotBitSame(masks[id], maskMap, k);
    } else {
      AndNotBitOther(masks[id], maskMap, k, j);
      assert id in stores[j] <==> Tagged(masks, id, maskMap[j]);
    }
  }

  /** AND-ing out a type's bit clears it. */
  lemma AndNotBitSame(m: EntityMask, maskMap: seq<EntityMask>, k: nat)
    requires k < |maskMap|
    ensures !HasBit(m & !maskMap[k], maskMap[k])
  {
    AndNotSame(m, maskMap[k]);
  }

  /** AND-ing out a type's bit leaves the bits of the other types as they were. */
  lemma AndNotBitOther(m: EntityMask, maskMap: seq<EntityMask>, k: nat, j: nat)
    requires Bits(maskMap) && k < |maskMap| && j < |maskMap| && j != k
    ensures HasBit(m & !maskMap[k], maskMap[j]) == HasBit(m, maskMap[j])
  {
    PairDisjoint(maskMap, k, j);
    AndNotBitKeeps(m, maskMap, k, j);
    AndNotBitAddsNone(m, maskMap, k, j);
  }

  /** AND-ing out a type's bit keeps the bits of a type with a disjoint mask. */
  lemma AndNotBitKeeps(m: EntityMask, maskMap: seq<EntityMask>, k: nat, j: nat)
    requires k < |maskMap| && j < |maskMap| && Disjoint(maskMap[k], maskMap[j])
    ensures HasBit(m, maskMap[j]) ==> HasBit(m & !maskMap[k], maskMap[j])
  {
    AndNotKeeps(m, maskMap[k], maskMap[j]);
  }

  /** AND-ing out a type's bit sets no bit. */
  lemma AndNotBitAddsNone(m: EntityMask, maskMap: seq<EntityMask>, k: nat, j: nat)
    requires k < |maskMap| && j < |maskMap|
    ensures HasBit(m & !maskMap[k], maskMap[j]) ==> HasBit(m, maskMap[j])
  {
    AndNotSubset(m, maskMap[k], maskMap[j]);
  }

  /** AND-ing bits out of a mask claims no new bit. */
  lemma RemoveUnclaimed(masks: seq<EntityMask>, next: nat, id: EntityID, a: EntityMask)
    requires Unclaimed(masks, next) && id < |masks|
    ensures Unclaimed(masks[id := masks[id] & !a], next)
  {
    var masks' := masks[id := masks[id] & !a];
    forall x: EntityID, b: nat | x < |masks'| && next <= b < MASK_WIDTH
      ensures !HasBit(masks'[x], Bit(b))
    {
      assert !HasBit(masks[x], Bit(b));
      if x == id {
        AndNotSubset(masks[id], a, Bit(b));
      }
    }
  }

  /** Minting identifiers with NULL masks keeps the masks and pools in step. */
  lemma MintSync<V>(masks: seq<EntityMask>, maskMap: seq<EntityMask>, stores: seq<map<EntityID, V>>,
                    next: nat, n: nat)
    requires InStep(masks, maskMap, stores) && Unclaimed(masks, next) && |masks| <= n
    ensures InStep(EM.Extend(masks, n, NULL_MASK, NULL_MASK), maskMap, stores)
    ensures Unclaimed(EM.Extend(masks, n, NULL_MASK, NULL_MASK), next)
  {
    var masks' := EM.Extend(masks, n, NULL_MASK, NULL_MASK);
    forall x: nat | x < |masks'|
      ensures masks'[x] == if x < |masks| then masks[x] else NULL_MASK
    {
      if x < |masks| {
        assert masks'[x] == masks'[..|masks|][x];
      }
    }
    forall j: nat, x: EntityID | j < |stores|
      ensures x in stores[j] <==> Tagged(masks', x, maskMap[j])
    {
      assert x in stores[j] <==> Tagged(masks, x, maskMap[j]);
      if |masks| <= x < |masks'| {
        NullNoBit(maskMap[j]);
      }
    }
    forall x: EntityID, b: nat | x < |masks'| && next <= b < MASK_WIDTH
      ensures !HasBit(masks'[x], Bit(b))
    {
      if x < |masks| {
        assert !HasBit(masks[x], Bit(b));
      } else {
        NullNoBit(Bit(b));
      }
    }
  }

  /** Clearing an identifier's mask and dropping it from every pool keeps the masks and pools in step. */
  lemma DestroySync<V>(masks: seq<EntityMask>, maskMap: seq<EntityMask>, stores: seq<map<EntityID, V>>,
                       next: nat, id: EntityID)
    requires InStep(masks, maskMap, stores) && Unclaimed(masks, next) && id < |masks|
    ensures InStep(masks[id := NULL_MASK], maskMap, CM.WithoutEntity(stores, id))
    ensures Unclaimed(masks[id := NULL_MASK], next)
  {
    var masks', stores' := masks[id := NULL_MASK], CM.WithoutEntity(stores, id);
    forall j: nat, x: EntityID | j < |stores'|
      ensures x in stores'[j] <==> Tagged(masks', x, maskMap[j])
    {
      if x == id {
        assert x !in stores'[j];
        NullNoBit(maskMap[j]);
      } else {
        assert x in stores'[j] <==> x in stores[j];
        assert Tagged(masks', x, maskMap[j]) == Tagged(masks, x, maskMap[j]);
        assert x in stores[j] <==> Tagged(masks, x, maskMap[j]);
      }
    }
    forall x: EntityID, b: nat | x < |masks'| && next <= b < MASK_WIDTH
      ensures !HasBit(masks'[x], Bit(b))
    {
      if x == id {
        NullNoBit(Bit(b));
      } else {
        assert !HasBit(masks[x], Bit(b));
      }
    }
  }

  /** Giving `id` the component of type position `k` keeps both invariants over a type table. */
  lemma AddKeeps<V>(masks: seq<EntityMask>, masks': seq<EntityMask>, stores: seq<map<EntityID, V>>,
                    stores': seq<map<EntityID, V>>, k: nat, id: EntityID, v: V,
                    maxID: ComponentTypeID, firstID: ComponentTypeID, nextID: ComponentTypeID,
                    idMap: map<CM.ComponentType, ComponentTypeID>, maskMap: seq<EntityMask>)
    requires CM.TypeTable(maxID, firstID, nextID, idMap, maskMap)
    requires InStep(masks, maskMap, stores) && Unclaimed(masks, nextID) && k < |stores| && id < |masks|
    requires masks' == EM.Raise(masks, id, maskMap[k]) && stores' == CM.Put(stores, k, id, v)
    ensures InStep(masks', maskMap, stores') && Unclaimed(masks', nextID)
  {
    TableBits(maxID, firstID, nextID, idMap, maskMap);
    AddSync(masks, maskMap, stores, k, id, v);
    AddUnclaimed(masks, nextID, id, firstID + k);
  }

  /** Taking the component of type position `k` from `id` keeps both invariants over a type table. */
  lemma RemoveKeeps<V>(masks: seq<EntityMask>, masks': seq<EntityMask>, stores: seq<map<EntityID, V>>,
                       stores': seq<map<EntityID, V>>, k: nat, id: EntityID,
                       maxID: ComponentTypeID, firstID: ComponentTypeID, nextID: ComponentTypeID,
                       idMap: map<CM.ComponentType, ComponentTypeID>, maskMap: seq<EntityMask>)
    requires CM.TypeTable(maxID, firstID, nextID, idMap, maskMap)
    requires InStep(masks, maskMap, stores) && Unclaimed(masks, nextID) && k < |stores| && id < |masks|
    requires masks' == EM.Lower(masks, id, maskMap[k]) && stores' == CM.Drop(stores, k, id)
    ensures InStep(masks', maskMap, stores') && Unclaimed(masks', nextID)
  {
    TableBits(maxID, firstID, nextID, idMap, maskMap);
    RemoveSync(masks, maskMap, stores, k, id);
    RemoveUnclaimed(masks, nextID, id, maskMap[k]);
  }

  // ---------------------------------------------------------------------
  // The mask a query requires.
  // ---------------------------------------------------------------------

  /** Every type mask has exactly one bit set. */
  ghost predicate Singles(maskMap: seq<EntityMask>)
  {
    forall k :: 0 <= k < |maskMap| ==> SingleBit(maskMap[k])
  }

  /** The masks of a type table are single bits. */
  lemma TableSingles(maxID: ComponentTypeID, firstID: ComponentTypeID, nextID: ComponentTypeID,
                     idMap: map<CM.ComponentType, ComponentTypeID>, maskMap: seq<EntityMask>)
    requires CM.TypeTable(maxID, firstID, nextID, idMap, maskMap)
    ensures Singles(maskMap)
  {
    forall k | 0 <= k < |maskMap|
      ensures SingleBit(maskMap[k])
    {
      BitIsSingle(firstID + k);
    }
  }

  /** Every registered identifier names one of the `n` positions from `firstID`. */
  ghost predicate Ranged(idMap: map<CM.ComponentType, ComponentTypeID>, firstID: ComponentTypeID, n: nat)
  {
    forall t :: t in idMap ==> firstID <= idMap[t] < firstID + n
  }

  /**
   * The OR of the masks of the types `tags`, the mask an entity must contain
   * to carry all of them; UnregisteredType when one of them is not
   * registered. No type at all requires NULL_MASK.
   */
  function RequiredMask(idMap: map<CM.ComponentType, ComponentTypeID>, maskMap: seq<EntityMask>,
                        firstID: ComponentTypeID, tags: seq<CM.ComponentType>): (r: Result<EntityMask>)
    requires Ranged(idMap, firstID, |maskMap|)
    ensures r.Ok? <==> forall i :: 0 <= i < |tags| ==> tags[i] in idMap
    ensures r.Err? ==> r.error == UnregisteredType
  {
    if tags == [] then Ok(NULL_MASK)
    else if tags[0] !in idMap then Err(UnregisteredType)
    else
      var rest := RequiredMask(idMap, maskMap, firstID, tags[1..]);
      assert forall i :: 1 <= i < |tags| ==> tags[i] == tags[1..][i - 1];
      if rest.Err? then rest else Ok(maskMap[idMap[tags[0]] - firstID] | rest.value)
  }

  /** The mask `m` contains the mask of every type of `tags`. */
  ghost predicate AllContained(m: EntityMask, idMap: map<CM.ComponentType, ComponentTypeID>, maskMap: seq<EntityMask>,
                               firstID: ComponentTypeID, tags: seq<CM.ComponentType>)
    requires Ranged(idMap, firstID, |maskMap|)
  {
    forall i :: 0 <= i < |tags| && tags[i] in idMap ==> Contains(m, maskMap[idMap[tags[i]] - firstID])
  }

  /** Containing every mask of `tags` is containing the first and every mask of the rest. */
  lemma AllContainedCons(m: EntityMask, idMap: map<CM.ComponentType, ComponentTypeID>, maskMap: seq<EntityMask>,
                         firstID: ComponentTypeID, tags: seq<CM.ComponentType>)
    requires Ranged(idMap, firstID, |maskMap|) && tags != [] && tags[0] in idMap
    ensures AllContained(m, idMap, maskMap, firstID, tags)
            <==> Contains(m, maskMap[idMap[tags[0]] - firstID]) && AllContained(m, idMap, maskMap, firstID, tags[1..])
  {
    assert forall i :: 1 <= i < |tags| ==> tags[i] == tags[1..][i - 1];
  }

  /** A mask contains the required mask exactly when it contains the mask of every requested type. */
  lemma {:induction false} RequiredMaskMeans(idMap: map<CM.ComponentType, ComponentTypeID>, maskMap: seq<EntityMask>,
                                             firstID: ComponentTypeID, tags: seq<CM.ComponentType>, m: EntityMask)
    requires Ranged(idMap, firstID, |maskMap|)
    requires RequiredMask(idMap, maskMap, firstID, tags).Ok?
    ensures Contains(m, RequiredMask(idMap, maskMap, firstID, tags).value)
            <==> AllContained(m, idMap, maskMap, firstID, tags)
  {
    if tags == [] {
      ContainsNull(m);
    } else {
      var a := maskMap[idMap[tags[0]] - firstID];
      var rest := RequiredMask(idMap, maskMap, firstID, tags[1..]).value;
      var req := RequiredMask(idMap, maskMap, firstID, tags).value;
      assert req == a | rest;
      RequiredMaskMeans(idMap, maskMap, firstID, tags[1..], m);
      ContainsUnion(m, a, rest);
      AllContainedCons(m, idMap, maskMap, firstID, tags);
      Chain(Contains(m, req), Contains(m, a), Contains(m, rest),
            AllContained(m, idMap, maskMap, firstID, tags[1..]), AllContained(m, idMap, maskMap, firstID, tags));
    }
  }

  /** Propositional step of the query proof, kept apart from the mask reasoning. */
  lemma Chain(p: bool, q: bool, r: bool, s: bool, t: bool)
    requires p == (q && r) && r == s && t == (q && s)
    ensures p == t
  {
  }

  /** A mask contains a single-bit type mask exactly when it has that bit. */
  lemma ContainsAt(maskMap: seq<EntityMask>, k: nat, m: EntityMask)
    requires Singles(maskMap) && k < |maskMap|
    ensures Contains(m, maskMap[k]) <==> HasBit(m, maskMap[k])
  {
    ContainsSingle(m, maskMap[k]);
  }

  /**
   * With masks and pools in step, the mask of `id` contains the required
   * mask exactly when `id` is in the pool of every requested type.
   */
  lemma MatchAt<V>(masks: seq<EntityMask>, maskMap: seq<EntityMask>, stores: seq<map<EntityID, V>>,
                   idMap: map<CM.ComponentType, ComponentTypeID>, firstID: ComponentTypeID,
                   tags: seq<CM.ComponentType>, id: EntityID)
    requires InStep(masks, maskMap, stores) && Singles(maskMap) && Ranged(idMap, firstID, |maskMap|) && id < |masks|
    requires RequiredMask(idMap, maskMap, firstID, tags).Ok?
    ensures Contains(masks[id], RequiredMask(idMap, maskMap, firstID, tags).value)
            <==> forall i :: 0 <= i < |tags| ==> id in stores[idMap[tags[i]] - firstID]
  {
    RequiredMaskMeans(idMap, maskMap, firstID, tags, masks[id]);
    forall i | 0 <= i < |tags|
      ensures id in stores[idMap[tags[i]] - firstID] <==> Contains(masks[id], maskMap[idMap[tags[i]] - firstID])
      ensures tags[i] in idMap
    {
      var k: nat := idMap[tags[i]] - firstID;
      ContainsAt(maskMap, k, masks[id]);
      assert id in stores[k] <==> Tagged(masks, id, maskMap[k]);
    }
  }

  // ---------------------------------------------------------------------
  // The index from system tags to positions.
  // ---------------------------------------------------------------------

  /**
   * `indexMap` holds exactly the tags of `systems`, each mapped to the first
   * position that carries it.
   */
  ghost predicate IndexOf(systems: seq<System>, indexMap: map<SystemTag, nat>)
  {
    && (forall i :: 0 <= i < |systems| ==> systems[i].tag in indexMap)
    && (forall t :: t in indexMap ==>
          && indexMap[t] < |systems| && systems[indexMap[t]].tag == t
          && forall j :: 0 <= j < indexMap[t] ==> systems[j].tag != t)
  }

  /** With distinct tags, the index of the tag at position `i` is `i`. */
  lemma IndexExact(systems: seq<System>, indexMap: map<SystemTag, nat>, i: nat)
    requires IndexOf(systems, indexMap) && DistinctTags(systems) && i < |systems|
    ensures indexMap[systems[i].tag] == i
  {
  }

  /**
   * When the system at `k` now has flag `b` and every system that is not the
   * one at `k` still has its flag from `flags`, the flags are `flags` with
   * position `k` set to `b`: with distinct tags no other position holds the
   * same system.
   */
  lemma Toggled(systems: seq<System>, flags: seq<bool>, k: nat, b: bool)
    requires |flags| == |systems| && k < |systems| && DistinctTags(systems) && systems[k].enabled == b
    requires forall j :: 0 <= j < |systems| && systems[j] != systems[k] ==> systems[j].enabled == flags[j]
    ensures EnabledFlags(systems) == flags[k := b]
  {
    forall j | 0 <= j < |systems| && j != k
      ensures systems[j].enabled == flags[j]
    {
      assert systems[j].tag != systems[k].tag;
    }
  }

  /** Appending a system whose tag is not indexed keeps the tags distinct. */
  lemma AppendDistinct(systems: seq<System>, indexMap: map<SystemTag, nat>, s: System)
    requires DistinctTags(systems) && IndexOf(systems, indexMap) && s.tag !in indexMap
    ensures DistinctTags(systems + [s])
  {
    assert TagAbsent(systems, s.tag);
  }

  /**
   * After `s` is added to `before` and the result is reordered into
   * `after`, `s` sits at some position `p`, and no system of `after` is in
   * `repr` when none of `before` and not `s` were.
   */
  lemma Placed(before: seq<System>, s: System, after: seq<System>, repr: set<object>) returns (p: nat)
    requires after == SortByPriority(before + [s])
    requires (forall i :: 0 <= i < |before| ==> before[i] !in repr) && s !in repr
    ensures p < |after| && after[p] == s
    ensures forall i :: 0 <= i < |after| ==> after[i] !in repr
  {
    forall i | 0 <= i < |after|
      ensures after[i] !in repr
    {
      assert after[i] in multiset(before + [s]);
      var j :| 0 <= j < |before + [s]| && (before + [s])[j] == after[i];
    }
    assert s in multiset(after);
    p :| 0 <= p < |after| && after[p] == s;
  }

  /** Taking a system out of a sorted vector leaves it sorted, with distinct tags still distinct. */
  lemma EraseKeeps(systems: seq<System>, i: nat)
    requires i < |systems| && SortedByPriority(systems) && DistinctTags(systems)
    ensures SortedByPriority(systems[..i] + systems[i + 1..])
    ensures DistinctTags(systems[..i] + systems[i + 1..])
    ensures TagAbsent(systems[..i] + systems[i + 1..], systems[i].tag)
  {
    var r := systems[..i] + systems[i + 1..];
    assert forall a :: 0 <= a < |r| ==> r[a] == systems[if a < i then a else a + 1];
  }

  // ---------------------------------------------------------------------
  // The scene.
  // ---------------------------------------------------------------------

  /**
   * The loop of an update pass over the systems vector, indexed by
   * `indexMap`: it runs the systems in order and applies each effect to the
   * flags as it goes.
   */
  method RunPass(systems: seq<System>, indexMap: map<SystemTag, nat>, effects: map<SystemTag, Effect>)
    returns (ran: seq<nat>, o: Outcome)
    requires DistinctTags(systems) && IndexOf(systems, indexMap)
    modifies systems
    ensures Run(ran, EnabledFlags(systems), o) == Schedule(Tags(systems), indexMap, effects, old(EnabledFlags(systems)), 0)
  {
    ran, o := [], Pass;
    var i := 0;
    while i < |systems|
      invariant 0 <= i <= |systems|
      invariant Schedule(Tags(systems), indexMap, effects, old(EnabledFlags(systems)), 0)
                == After(ran, Schedule(Tags(systems), indexMap, effects, EnabledFlags(systems), i))
    {
      var s := systems[i];
      ghost var tags, flags := Tags(systems), EnabledFlags(systems);
      if s.enabled && s.tag in effects {
        var e := effects[s.tag];
        if e.target !in indexMap {
          AfterAfter(ran, [i], Run([], flags, Fail(MissingSystem)));
          ran, o := ran + [i], Fail(MissingSystem);
          break;
        }
        var k := indexMap[e.target];
        systems[k].SetEnabled(e.enable);
        Toggled(systems, flags, k, e.enable);
        AfterAfter(ran, [i], Schedule(tags, indexMap, effects, flags[k := e.enable], i + 1));
        ran := ran + [i];
      } else if s.enabled {
        AfterAfter(ran, [i], Schedule(tags, indexMap, effects, flags, i + 1));
        ran := ran + [i];
      }
      i := i + 1;
    }
  }

  class Scene<V> {
    /** The position in `systems` of each system tag. */
    var indexMap: map<SystemTag, nat>
    /** The systems, sorted by ascending priority. */
    var systems: seq<System>
    const entityManager: EM.EntityManager
    const componentManager: CM.ComponentManager<V>

    ghost var Repr: set<object>

    /**
     * The scene invariant: both registries are valid and own disjoint state,
     * the masks and the pools are in step, no mask has the bit of a type not
     * yet registered, and the systems are sorted, with distinct tags, and
     * indexed by `indexMap`.
     */
    ghost predicate Valid()
      reads this, Repr
    {
      && this in Repr && entityManager in Repr && componentManager in Repr
      && componentManager.Repr <= Repr
      && Repr == {this, entityManager} + componentManager.Repr
      && this !in componentManager.Repr
      && Synced()
      && SortedByPriority(systems) && DistinctTags(systems) && IndexOf(systems, indexMap)
      && forall i :: 0 <= i < |systems| ==> systems[i] !in Repr
    }

    /**
     * The registries are valid and own disjoint state, the masks and the
     * pools are in step, and no mask has the bit of a type not yet
     * registered. Only the registries' state is read, so a change to the
     * systems keeps it.
     */
    ghost predicate Synced()
      reads entityManager, componentManager, componentManager.Repr
    {
      && entityManager !in componentManager.Repr
      && entityManager.Valid() && componentManager.Valid()
      && InStep(entityManager.entityMasks, componentManager.maskMap, componentManager.Stores)
      && Unclaimed(entityManager.entityMasks, componentManager.nextID)
    }

    /**
     * An empty scene: an entity registry with the widest identifier limit
     * and a component registry limited to the mask width, no system.
     */
    constructor ()
      ensures Valid() && fresh(Repr)
      ensures systems == [] && indexMap == map[]
      ensures entityManager.maxID == SIZE_MAX && entityManager.newID == 0 && entityManager.entityGens == []
      ensures componentManager.maxID == MASK_WIDTH && componentManager.nextID == 0
      ensures componentManager.idMap == map[]
    {
      indexMap, systems := map[], [];
      entityManager := new EM.EntityManager(SIZE_MAX, 0);
      componentManager := new CM.ComponentManager<V>(MASK_WIDTH, 0);
      new;
      Repr := {this, entityManager} + componentManager.Repr;
    }

    // -------------------------------------------------------------------
    // Entities.
    // -------------------------------------------------------------------

    /** `e` names a live entity of the scene. */
    function IsEntityValid(e: Entity): (r: bool)
      reads this, Repr
      requires Valid()
      ensures r <==> EM.LiveIn(entityManager.entityGens, entityManager.entityActive, e)
      ensures r ==> !entityManager.Retired(e)
    {
      entityManager.IsValid(e)
    }

    /**
     * The mask of a valid entity, which has the bit of a registered type
     * exactly when the entity holds a component of that type;
     * InvalidEntity otherwise.
     */
    function GetMask(e: Entity): (r: Result<EntityMask>)
      reads this, Repr
      requires Valid()
      ensures r.Ok? <==> IsEntityValid(e)
      ensures r.Err? ==> r.error == InvalidEntity
      ensures r.Ok? ==> r.value == entityManager.entityMasks[e.id]
      ensures r.Ok? ==> forall t :: t in componentManager.idMap ==>
                (HasBit(r.value, componentManager.maskMap[componentManager.Slot(t)]) <==> componentManager.HasComponent(t, e.id))
    {
      entityManager.GetMask(e)
    }

    /**
     * Create an entity with no component: a valid handle that was not valid
     * before, whose mask is NULL_MASK. Every handle valid before stays valid
     * and every retired handle stays retired. EntityLimit, changing nothing,
     * once the registry's identifiers are exhausted.
     */
    method CreateEntity() returns (r: Result<Entity>)
      requires Valid()
      modifies entityManager
      ensures Valid()
      ensures r.Err? <==> old(entityManager.newID) >= entityManager.maxID
      ensures r.Err? ==> r.error == EntityLimit && unchanged(entityManager)
      ensures r.Ok? ==> IsEntityValid(r.value) && !old(IsEntityValid(r.value))
      ensures r.Ok? ==> GetMask(r.value) == Ok(NULL_MASK)
      ensures r.Ok? ==> forall t :: !componentManager.HasComponent(t, r.value.id)
      ensures r.Ok? && old(entityManager.recycledIDs) != [] ==>
                var id := old(entityManager.recycledIDs)[|old(entityManager.recycledIDs)| - 1];
                r.value == Entity(id, old(entityManager.entityGens)[id])
                && entityManager.recycledIDs == old(entityManager.recycledIDs)[..|old(entityManager.recycledIDs)| - 1]
      ensures r.Ok? && old(entityManager.recycledIDs) == [] ==>
                r.value == Entity(old(entityManager.newID), 0) && entityManager.newID == old(entityManager.newID) + 1
      ensures forall e :: old(IsEntityValid(e)) ==> IsEntityValid(e)
      ensures forall e :: old(entityManager.Retired(e)) ==> entityManager.Retired(e)
    {
      ghost var masks := entityManager.entityMasks;
      ghost var gens := entityManager.entityGens;
      r := entityManager.CreateEntity(NULL_MASK);
      if r.Ok? {
        if old(entityManager.recycledIDs) != [] {
          assert masks[r.value.id] == NULL_MASK;
          assert entityManager.entityMasks == masks;
        } else {
          MintSync(masks, componentManager.maskMap, componentManager.Stores, componentManager.nextID,
                   old(entityManager.newID));
        }
        forall t | t in componentManager.idMap
          ensures !componentManager.HasComponent(t, r.value.id)
        {
          NullNoBit(componentManager.maskMap[componentManager.Slot(t)]);
        }
      }
      forall e | old(entityManager.Retired(e))
        ensures entityManager.Retired(e)
      {
        EM.RetiredStaysRetired(gens, entityManager.entityGens, e);
      }
    }

    /**
     * Destroy a valid entity and drop all its components: the handle is
     * retired, no pool holds its identifier, every other identifier keeps
     * its components and every other valid handle stays valid.
     * InvalidEntity, changing nothing, otherwise.
     */
    method DestroyEntity(e: Entity) returns (o: Outcome)
      requires Valid()
      modifies entityManager, componentManager.Repr
      ensures Valid() && Repr == old(Repr)
      ensures o == if old(IsEntityValid(e)) then Pass else Fail(InvalidEntity)
      ensures o.Fail? ==> unchanged(Repr)
      ensures o.Pass? ==> !IsEntityValid(e) && entityManager.Retired(e)
      ensures o.Pass? ==>
                && entityManager.newID == old(entityManager.newID)
                && entityManager.recycledIDs == old(entityManager.recycledIDs) + [e.id]
                && e.id < |entityManager.entityGens| && entityManager.entityGens[e.id] == e.gen + 1
      ensures o.Pass? ==> componentManager.Stores == CM.WithoutEntity(old(componentManager.Stores), e.id)
      ensures o.Pass? ==> forall t :: !componentManager.HasComponent(t, e.id)
      ensures componentManager.idMap == old(componentManager.idMap)
      ensures forall x :: old(IsEntityValid(x)) && x.id != e.id ==> IsEntityValid(x)
      ensures forall x :: old(entityManager.Retired(x)) ==> entityManager.Retired(x)
    {
      if !entityManager.IsValid(e) {
        return Fail(InvalidEntity);
      }
      ghost var masks := entityManager.entityMasks;
      ghost var gens := entityManager.entityGens;
      o := entityManager.DestroyEntity(e);
      componentManager.EntityDestroyed(e.id);
      DestroySync(masks, componentManager.maskMap, old(componentManager.Stores), componentManager.nextID, e.id);
      forall x | old(entityManager.Retired(x))
        ensures entityManager.Retired(x)
      {
        EM.RetiredStaysRetired(gens, entityManager.entityGens, x);
      }
    }

    // -------------------------------------------------------------------
    // Components.
    // -------------------------------------------------------------------

    /**
     * Register the component type `t` with the next identifier, its bit and
     * an empty pool; no entity holds it yet. DuplicateType or TypeLimit,
     * changing nothing, as the component registry decides.
     */
    method RegisterComponent(t: CM.ComponentType) returns (o: Outcome)
      requires Valid()
      modifies this, componentManager
      ensures Valid() && fresh(Repr - old(Repr))
      ensures o == if t in old(componentManager.idMap) then Fail(DuplicateType)
                   else if old(componentManager.nextID) >= componentManager.maxID then Fail(TypeLimit)
                   else Pass
      ensures o.Fail? ==> unchanged(componentManager)
      ensures o.Pass? ==> componentManager.IsComponentTypeRegistered(t)
      ensures o.Pass? ==> forall e :: IsEntityValid(e) ==> HasComponent(e, t) == Ok(false)
      ensures systems == old(systems) && indexMap == old(indexMap)
    {
      o := componentManager.RegisterComponentType(t);
      if o.Pass? {
        RegisterSync(entityManager.entityMasks, old(componentManager.maskMap), old(componentManager.Stores),
                     old(componentManager.nextID));
      }
      Repr := {this, entityManager} + componentManager.Repr;
    }

    /**
     * Whether a valid entity holds a component of type `t`, which is whether
     * its mask has the bit of `t`; InvalidEntity otherwise. An unregistered
     * type is held by no entity.
     */
    function HasComponent(e: Entity, t: CM.ComponentType): (r: Result<bool>)
      reads this, Repr
      requires Valid()
      ensures r.Ok? <==> IsEntityValid(e)
      ensures r.Err? ==> r.error == InvalidEntity
      ensures r.Ok? ==> (r.value <==> t in componentManager.idMap && e.id in componentManager.Store(t))
    {
      if !entityManager.IsValid(e) then Err(InvalidEntity)
      else Ok(componentManager.HasComponent(t, e.id))
    }

    /** A valid entity holds a component of a type exactly when the type is registered and the entity's mask has its bit. */
    lemma HasComponentByMask(e: Entity, t: CM.ComponentType)
      requires Valid() && IsEntityValid(e)
      ensures HasComponent(e, t)
              == Ok(t in componentManager.idMap
                    && HasBit(entityManager.entityMasks[e.id], componentManager.maskMap[componentManager.Slot(t)]))
    {
      if t in componentManager.idMap {
        var k := componentManager.Slot(t);
        assert e.id in componentManager.Stores[k] <==> Tagged(entityManager.entityMasks, e.id, componentManager.maskMap[k]);
      }
    }

    /**
     * The component of type `t` of a valid entity; InvalidEntity,
     * UnregisteredType or MissingComponent otherwise.
     */
    function GetComponent(e: Entity, t: CM.ComponentType): (r: Result<V>)
      reads this, Repr
      requires Valid()
      ensures r.Ok? <==> HasComponent(e, t) == Ok(true)
      ensures r.Ok? ==> r.value == componentManager.Store(t)[e.id]
      ensures r.Err? ==> r.error == if !IsEntityValid(e) then InvalidEntity
                                   else if t !in componentManager.idMap then UnregisteredType
                                   else MissingComponent
    {
      if !entityManager.IsValid(e) then Err(InvalidEntity)
      else componentManager.GetComponent(t, e.id)
    }

    /**
     * Give a valid entity the component `v` of type `t`, overwriting the one
     * it held: its pool stores `v` and its mask gains the bit of `t`, and
     * nothing else changes. InvalidEntity or UnregisteredType, changing
     * nothing, otherwise.
     */
    method AddComponent(e: Entity, t: CM.ComponentType, v: V) returns (o: Outcome)
      requires Valid() && componentManager.HasRoom(t)
      modifies entityManager, componentManager.Repr
      ensures Valid() && Repr == old(Repr)
      ensures o == if !old(IsEntityValid(e)) then Fail(InvalidEntity)
                   else if t !in old(componentManager.idMap) then Fail(UnregisteredType)
                   else Pass
      ensures o.Fail? ==> unchanged(entityManager) && componentManager.Stores == old(componentManager.Stores)
      ensures componentManager.idMap == old(componentManager.idMap) && componentManager.maskMap == old(componentManager.maskMap)
      ensures o.Pass? ==> componentManager.Stores == CM.Put(old(componentManager.Stores), componentManager.Slot(t), e.id, v)
      ensures o.Pass? ==> entityManager.entityMasks == EM.Raise(old(entityManager.entityMasks), e.id, componentManager.maskMap[componentManager.Slot(t)])
      ensures entityManager.newID == old(entityManager.newID) && entityManager.recycledIDs == old(entityManager.recycledIDs)
      ensures entityManager.entityGens == old(entityManager.entityGens) && entityManager.entityActive == old(entityManager.entityActive)
      ensures forall x :: IsEntityValid(x) <==> old(IsEntityValid(x))
    {
      if !entityManager.IsValid(e) {
        return Fail(InvalidEntity);
      }
      ghost var masks := entityManager.entityMasks;
      o := componentManager.AssignComponent(t, e.id, v);
      if o.Fail? {
        return;
      }
      var k := componentManager.Slot(t);
      var mask := componentManager.maskMap[k];
      var _ := entityManager.AddMask(e, mask);
      assert componentManager.Slot(t) == k && componentManager.maskMap[k] == mask;
      AddKeeps(masks, entityManager.entityMasks, old(componentManager.Stores), componentManager.Stores, k, e.id, v,
               componentManager.maxID, componentManager.firstID, componentManager.nextID,
               componentManager.idMap, componentManager.maskMap);
    }

    /**
     * What a passed AddComponent leaves behind, read through the queries:
     * with the pools `before` updated by storing `v` for the entity in the
     * pool of `t`, the entity holds `v` as its `t`, and holds a component of
     * any other type exactly when `before` held one.
     */
    lemma HoldsAfterAdd(e: Entity, t: CM.ComponentType, v: V, before: seq<map<EntityID, V>>)
      requires Valid() && IsEntityValid(e) && t in componentManager.idMap
      requires |before| == |componentManager.Stores|
      requires componentManager.Stores == CM.Put(before, componentManager.Slot(t), e.id, v)
      ensures HasComponent(e, t) == Ok(true) && GetComponent(e, t) == Ok(v)
      ensures forall u :: u != t ==>
                HasComponent(e, u) == Ok(u in componentManager.idMap && e.id in before[componentManager.Slot(u)])
    {
      var cm := componentManager;
      forall u | u != t
        ensures HasComponent(e, u) == Ok(u in cm.idMap && e.id in before[cm.Slot(u)])
      {
        if u in cm.idMap {
          assert cm.Slot(u) != cm.Slot(t);
        }
      }
    }

    /**
     * What a passed RemoveComponent leaves behind, read through the queries:
     * with the pools `before` updated by dropping the entity from the pool of
     * `t`, the entity holds no `t`, and holds a component of any other type
     * exactly when `before` held one.
     */
    lemma HoldsAfterRemove(e: Entity, t: CM.ComponentType, before: seq<map<EntityID, V>>)
      requires Valid() && IsEntityValid(e) && t in componentManager.idMap
      requires |before| == |componentManager.Stores|
      requires componentManager.Stores == CM.Drop(before, componentManager.Slot(t), e.id)
      ensures HasComponent(e, t) == Ok(false)
      ensures forall u :: u != t ==>
                HasComponent(e, u) == Ok(u in componentManager.idMap && e.id in before[componentManager.Slot(u)])
    {
      var cm := componentManager;
      forall u | u != t
        ensures HasComponent(e, u) == Ok(u in cm.idMap && e.id in before[cm.Slot(u)])
      {
        if u in cm.idMap {
          assert cm.Slot(u) != cm.Slot(t);
        }
      }
    }

    /**
     * Take the component of type `t` from a valid entity: its pool drops it
     * and its mask loses the bit of `t`, and nothing else changes.
     * InvalidEntity, UnregisteredType or MissingComponent, changing nothing,
     * otherwise.
     */
    method RemoveComponent(e: Entity, t: CM.ComponentType) returns (o: Outcome)
      requires Valid()
      modifies entityManager, componentManager.Repr
      ensures Valid() && Repr == old(Repr)
      ensures o == if !old(IsEntityValid(e)) then Fail(InvalidEntity)
                   else if t !in old(componentManager.idMap) then Fail(UnregisteredType)
                   else if old(HasComponent(e, t)) == Ok(false) then Fail(MissingComponent)
                   else Pass
      ensures o.Fail? ==> unchanged(entityManager) && componentManager.Stores == old(componentManager.Stores)
      ensures componentManager.idMap == old(componentManager.idMap) && componentManager.maskMap == old(componentManager.maskMap)
      ensures o.Pass? ==> componentManager.Stores == CM.Drop(old(componentManager.Stores), componentManager.Slot(t), e.id)
      ensures o.Pass? ==> entityManager.entityMasks == EM.Lower(old(entityManager.entityMasks), e.id, componentManager.maskMap[componentManager.Slot(t)])
      ensures entityManager.newID == old(entityManager.newID) && entityManager.recycledIDs == old(entityManager.recycledIDs)
      ensures entityManager.entityGens == old(entityManager.entityGens) && entityManager.entityActive == old(entityManager.entityActive)
      ensures forall x :: IsEntityValid(x) <==> old(IsEntityValid(x))
    {
      if !entityManager.IsValid(e) {
        return Fail(InvalidEntity);
      }
      ghost var masks := entityManager.entityMasks;
      o := componentManager.UnassignComponent(t, e.id);
      if o.Fail? {
        return;
      }
      var k := componentManager.Slot(t);
      var mask := componentManager.maskMap[k];
      var _ := entityManager.RemoveMask(e, mask);
      assert componentManager.Slot(t) == k && componentManager.maskMap[k] == mask;
      RemoveKeeps(masks, entityManager.entityMasks, old(componentManager.Stores), componentManager.Stores, k, e.id,
                  componentManager.maxID, componentManager.firstID, componentManager.nextID,
                  componentManager.idMap, componentManager.maskMap);
    }

    /**
     * Whether a valid entity holds a component of every type of `tags`;
     * InvalidEntity otherwise.
     */
    function HasComponents(e: Entity, tags: seq<CM.ComponentType>): (r: Result<bool>)
      reads this, Repr
      requires Valid()
      ensures r.Ok? <==> IsEntityValid(e)
      ensures r.Err? ==> r.error == InvalidEntity
      ensures r.Ok? ==> (r.value <==> forall i :: 0 <= i < |tags| ==> HasComponent(e, tags[i]) == Ok(true))
    {
      if !entityManager.IsValid(e) then Err(InvalidEntity)
      else Ok(forall i :: 0 <= i < |tags| ==> componentManager.HasComponent(tags[i], e.id))
    }

    /**
     * For registered types, a valid entity holds all of `tags` exactly when
     * its mask contains the OR of their masks.
     */
    lemma HasComponentsByMask(e: Entity, tags: seq<CM.ComponentType>)
      requires Valid() && IsEntityValid(e)
      requires forall i :: 0 <= i < |tags| ==> tags[i] in componentManager.idMap
      ensures var req := RequiredMask(componentManager.idMap, componentManager.maskMap, componentManager.firstID, tags);
              && req.Ok?
              && (HasComponents(e, tags) == Ok(true) <==> Contains(entityManager.entityMasks[e.id], req.value))
    {
      var cm := componentManager;
      var stores, idMap, firstID := cm.Stores, cm.idMap, cm.firstID;
      TableSingles(cm.maxID, firstID, cm.nextID, idMap, cm.maskMap);
      MatchAt(entityManager.entityMasks, cm.maskMap, stores, idMap, firstID, tags, e.id);
      forall i | 0 <= i < |tags|
        ensures HasComponent(e, tags[i]) == Ok(true) <==> e.id in stores[idMap[tags[i]] - firstID]
      {
        assert cm.Slot(tags[i]) == idMap[tags[i]] - firstID;
      }
    }

    /**
     * The valid entities that hold a component of every type of `tags`, in
     * ascending identifier order; UnregisteredType when one of the types is
     * not registered.
     */
    method GetEntitiesWith(tags: seq<CM.ComponentType>) returns (r: Result<seq<Entity>>)
      requires Valid()
      ensures r.Err? <==> exists i :: 0 <= i < |tags| && tags[i] !in componentManager.idMap
      ensures r.Err? ==> r.error == UnregisteredType
      ensures r.Ok? ==> forall e :: e in r.value <==> IsEntityValid(e) && HasComponents(e, tags) == Ok(true)
      ensures r.Ok? ==> forall a, b :: 0 <= a < b < |r.value| ==> r.value[a].id < r.value[b].id
    {
      var cm := componentManager;
      var req := RequiredMask(cm.idMap, cm.maskMap, cm.firstID, tags);
      if req.Err? {
        return Err(UnregisteredType);
      }
      var out: seq<Entity> := [];
      var id := 0;
      while id < |entityManager.entityGens|
        invariant id <= |entityManager.entityGens|
        invariant forall x :: x in out <==> x.id < id && IsEntityValid(x) && HasComponents(x, tags) == Ok(true)
        invariant forall a :: 0 <= a < |out| ==> out[a].id < id
        invariant forall a, b :: 0 <= a < b < |out| ==> out[a].id < out[b].id
      {
        var e := Entity(id, entityManager.entityGens[id]);
        if entityManager.IsValid(e) {
          HasComponentsByMask(e, tags);
          if Contains(entityManager.entityMasks[id], req.value) {
            out := out + [e];
          }
        }
        id := id + 1;
      }
      return Ok(out);
    }

    // -------------------------------------------------------------------
    // Systems.
    // -------------------------------------------------------------------

    /** A system with tag `tag` is in the scene. */
    function HasSystem(tag: SystemTag): (r: bool)
      reads this, Repr
      requires Valid()
      ensures r <==> tag in Tags(systems)
    {
      tag in indexMap
    }

    /** The system with tag `tag`; MissingSystem when there is none. */
    function GetSystem(tag: SystemTag): (r: Result<System>)
      reads this, Repr
      requires Valid()
      ensures r.Ok? <==> HasSystem(tag)
      ensures r.Ok? ==> r.value in systems && r.value.tag == tag
      ensures r.Err? ==> r.error == MissingSystem
    {
      if tag in indexMap then Ok(systems[indexMap[tag]]) else Err(MissingSystem)
    }

    /** Whether the system with tag `tag` is enabled; MissingSystem when there is none. */
    function IsSystemEnabled(tag: SystemTag): (r: Result<bool>)
      reads this, Repr, systems
      requires Valid()
      ensures r.Ok? <==> HasSystem(tag)
      ensures r.Ok? ==> forall i :: 0 <= i < |systems| && systems[i].tag == tag ==> r.value == systems[i].enabled
      ensures r.Err? ==> r.error == MissingSystem
    {
      if tag in indexMap then Ok(systems[indexMap[tag]].IsEnabled()) else Err(MissingSystem)
    }

    /**
     * Enable or disable the system with tag `tag`; no other system's flag
     * changes. MissingSystem, changing nothing, when there is none.
     */
    method SetSystemEnabled(tag: SystemTag, b: bool) returns (o: Outcome)
      requires Valid()
      modifies systems
      ensures Valid()
      ensures o == if tag in Tags(systems) then Pass else Fail(MissingSystem)
      ensures o.Pass? ==> IsSystemEnabled(tag) == Ok(b)
      ensures forall i :: 0 <= i < |systems| ==>
                EnabledFlags(systems)[i] == if o.Pass? && systems[i].tag == tag then b else old(EnabledFlags(systems))[i]
    {
      if tag !in indexMap {
        return Fail(MissingSystem);
      }
      systems[indexMap[tag]].SetEnabled(b);
      o := Pass;
    }

    /**
     * Add a new, enabled system with tag `tag` and priority `priority`, and
     * sort the systems again. DuplicateSystem, changing nothing, when a
     * system with that tag is already in the scene.
     */
    method AddSystem(tag: SystemTag, priority: SystemPriority) returns (o: Outcome)
      requires Valid()
      modifies this
      ensures Valid() && Repr == old(Repr)
      ensures o == if tag in old(Tags(systems)) then Fail(DuplicateSystem) else Pass
      ensures o.Fail? ==> systems == old(systems) && indexMap == old(indexMap)
      ensures o.Pass? ==> tag in indexMap
      ensures o.Pass? ==>
                var s := systems[indexMap[tag]];
                && fresh(s) && s.tag == tag && s.priority == priority && s.enabled
                && multiset(systems) == multiset(old(systems)) + multiset{s}
    {
      if tag in indexMap {
        return Fail(DuplicateSystem);
      }
      var s := new System(tag, priority);
      AppendDistinct(systems, indexMap, s);
      ghost var before := systems;
      systems := systems + [s];
      SortSystems();
      ghost var p := Placed(before, s, systems, Repr);
      IndexExact(systems, indexMap, p);
      o := Pass;
    }

    /**
     * Take the system with tag `tag` out of the scene, keeping the order of
     * the others. MissingSystem, changing nothing, when there is none.
     */
    method RemoveSystem(tag: SystemTag) returns (o: Outcome)
      requires Valid()
      modifies this
      ensures Valid() && Repr == old(Repr)
      ensures o == if tag in old(Tags(systems)) then Pass else Fail(MissingSystem)
      ensures o.Fail? ==> systems == old(systems) && indexMap == old(indexMap)
      ensures o.Pass? ==> systems == old(systems)[..old(indexMap)[tag]] + old(systems)[old(indexMap)[tag] + 1..]
      ensures o.Pass? ==> !HasSystem(tag)
    {
      if tag !in indexMap {
        return Fail(MissingSystem);
      }
      var i := indexMap[tag];
      EraseKeeps(systems, i);
      systems := systems[..i] + systems[i + 1..];
      RebuildMap();
      o := Pass;
    }

    /** Sort the systems by ascending priority and rebuild the index. */
    method SortSystems()
      requires DistinctTags(systems)
      modifies this
      ensures systems == SortByPriority(old(systems))
      ensures IndexOf(systems, indexMap)
      ensures Repr == old(Repr)
    {
      systems := SortByPriority(systems);
      RebuildMap();
    }

    /**
     * Map every tag of `systems` to its position; a tag that occurs twice
     * keeps its first position.
     */
    method RebuildMap()
      modifies this
      ensures systems == old(systems) && Repr == old(Repr)
      ensures IndexOf(systems, indexMap)
    {
      indexMap := map[];
      var i := 0;
      while i < |systems|
        invariant 0 <= i <= |systems|
        invariant systems == old(systems) && Repr == old(Repr)
        invariant IndexOf(systems[..i], indexMap)
      {
        var tag := systems[i].tag;
        if tag !in indexMap {
          indexMap := indexMap[tag := i];
        }
        i := i + 1;
      }
      assert systems[..i] == systems;
    }

    /**
     * One update pass: each system runs, in vector order, when it is enabled
     * at its turn, and its update applies its effect to the flags. Returns
     * the positions that ran. Ends with MissingSystem when an effect names a
     * system not in the scene.
     */
    method Update(effects: map<SystemTag, Effect>) returns (ran: seq<nat>, o: Outcome)
      requires Valid()
      modifies systems
      ensures Valid()
      ensures Run(ran, EnabledFlags(systems), o) == Schedule(Tags(systems), indexMap, effects, old(EnabledFlags(systems)), 0)
    {
      ran, o := RunPass(systems, indexMap, effects);
      // Only the systems' own flags changed, and none of them is in Repr.
      assert Valid() == old(Valid());
    }
  }
}
