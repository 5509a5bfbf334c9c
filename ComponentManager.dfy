/**
 * The component registry: one sparse-set pool per registered component
 * type, a dense type identifier handed out from `nextID` upward and bounded
 * by `maxID`, and the one-bit mask of each type. Component types are integer
 * tags, and every pool stores the same value type `V`.
 *
 * Pools and masks sit at the registration position of their type, so the
 * type with identifier `firstID + k` owns `componentPools[k]` and
 * `maskMap[k]`.
 */
module ComponentManager {
  import opened Types
  import CP = ComponentPool

  /** A component type, named by an integer tag. */
  type ComponentType = nat

  /** `stores` with the map at `k` giving `id` the value `v`. */
  function Put<V>(stores: seq<map<EntityID, V>>, k: nat, id: EntityID, v: V): (r: seq<map<EntityID, V>>)
    requires k < |stores|
    ensures |r| == |stores| && id in r[k] && r[k][id] == v
  {
    var m: map<EntityID, V> := stores[k][id := v];
    stores[k := m]
  }

  /** `stores` with the map at `k` no longer holding `id`. */
  function Drop<V>(stores: seq<map<EntityID, V>>, k: nat, id: EntityID): (r: seq<map<EntityID, V>>)
    requires k < |stores|
    ensures |r| == |stores| && id !in r[k]
  {
    var m: map<EntityID, V> := stores[k] - {id};
    stores[k := m]
  }

  /** Every map of `stores` with `id` taken out. */
  function WithoutEntity<V>(stores: seq<map<EntityID, V>>, id: EntityID): (r: seq<map<EntityID, V>>)
    ensures |r| == |stores|
    ensures forall k :: 0 <= k < |r| ==> id !in r[k]
    ensures forall k, x :: 0 <= k < |r| && x != id ==>
              (x in r[k] <==> x in stores[k]) && (x in r[k] ==> r[k][x] == stores[k][x])
  {
    seq(|stores|, k requires 0 <= k < |stores| => stores[k] - {id})
  }

  /**
   * The broadcast as documented: pool by pool, in order, the identifier is
   * removed, and the first pool that does not hold it throws
   * MissingComponent, leaving the earlier pools already changed and the
   * later ones untouched. Returns how the broadcast ended and the pools it
   * leaves behind, starting at pool `k`.
   */
  function DestroyedAsWritten<V>(stores: seq<map<EntityID, V>>, id: EntityID, k: nat): (r: (Outcome, seq<map<EntityID, V>>))
    requires k <= |stores|
    ensures |r.1| == |stores|
    decreases |stores| - k
  {
    if k == |stores| then (Pass, stores)
    else if id !in stores[k] then (Fail(MissingComponent), stores)
    else
      var m: map<EntityID, V> := stores[k] - {id};
      DestroyedAsWritten(stores[k := m], id, k + 1)
  }

  /**
   * As documented, the broadcast throws whenever some pool from `k` on does
   * not hold the identifier, that is, whenever the entity lacks a component
   * of some registered type.
   */
  lemma {:induction false} BroadcastThrowsAsWritten<V>(stores: seq<map<EntityID, V>>, id: EntityID, k: nat, j: nat)
    requires k <= j < |stores| && id !in stores[j]
    ensures DestroyedAsWritten(stores, id, k).0 == Fail(MissingComponent)
    decreases |stores| - k
  {
    if id in stores[k] {
      var m: map<EntityID, V> := stores[k] - {id};
      assert stores[k := m][j] == stores[j];
      BroadcastThrowsAsWritten(stores[k := m], id, k + 1, j);
    }
  }

  /**
   * As documented, the broadcast passes when every pool from `k` on holds
   * the identifier, and then each of those pools has dropped it.
   */
  lemma {:induction false} BroadcastPassesAsWritten<V>(stores: seq<map<EntityID, V>>, id: EntityID, k: nat)
    requires k <= |stores|
    requires forall j :: k <= j < |stores| ==> id in stores[j]
    ensures var r := DestroyedAsWritten(stores, id, k);
            && r.0 == Pass
            && forall j :: 0 <= j < |stores| ==> r.1[j] == if j < k then stores[j] else stores[j] - {id}
    decreases |stores| - k
  {
    if k < |stores| {
      var m: map<EntityID, V> := stores[k] - {id};
      BroadcastPassesAsWritten(stores[k := m], id, k + 1);
    }
  }

  /**
   * The destroyed entity of the scene test holds the first and the third of
   * three registered types: as documented, the broadcast throws at the
   * second pool, after the first pool has already dropped the entity.
   */
  lemma TestEntityDestroyedAsWritten()
    ensures DestroyedAsWritten([map[1 := 10], map[], map[1 := 30]], 1, 0)
            == (Fail(MissingComponent), [map[], map[], map[1 := 30]])
  {
    var s0: seq<map<EntityID, int>> := [map[1 := 10], map[], map[1 := 30]];
    var m: map<EntityID, int> := s0[0] - {1};
    var s1 := s0[0 := m];
    assert m == map[] && s1 == [map[], map[], map[1 := 30]];
    assert 1 !in s1[1];
    assert DestroyedAsWritten(s1, 1, 1) == (Fail(MissingComponent), s1);
    assert DestroyedAsWritten(s0, 1, 0) == DestroyedAsWritten(s1, 1, 1);
  }

  /**
   * The type table: one mask per identifier in `firstID .. nextID`, all
   * below `maxID` and the mask width, each registered tag owning a distinct
   * identifier in that range, and the mask of identifier `t` being bit `t`.
   */
  ghost predicate TypeTable(maxID: ComponentTypeID, firstID: ComponentTypeID, nextID: ComponentTypeID,
                            idMap: map<ComponentType, ComponentTypeID>, maskMap: seq<EntityMask>)
  {
    && maxID <= MASK_WIDTH
    && firstID <= nextID
    && |maskMap| == nextID - firstID
    && (|maskMap| > 0 ==> nextID <= maxID)
    && |idMap| == |maskMap|
    && (forall t :: t in idMap ==> firstID <= idMap[t] < nextID)
    && (forall t1, t2 :: t1 in idMap && t2 in idMap && t1 != t2 ==> idMap[t1] != idMap[t2])
    && (forall k :: 0 <= k < |maskMap| ==> firstID + k < MASK_WIDTH && maskMap[k] == Bit(firstID + k))
  }

  /** Registering a new tag at `nextID` keeps the type table. */
  lemma RegisterKeeps(maxID: ComponentTypeID, firstID: ComponentTypeID, nextID: ComponentTypeID,
                      idMap: map<ComponentType, ComponentTypeID>, maskMap: seq<EntityMask>, t: ComponentType)
    requires TypeTable(maxID, firstID, nextID, idMap, maskMap) && t !in idMap && nextID < maxID
    ensures TypeTable(maxID, firstID, nextID + 1, idMap[t := nextID], maskMap + [Bit(nextID)])
  {
  }

  class ComponentManager<V> {
    const maxID: ComponentTypeID
    /** The identifier of the first registered type (the constructor's `nextid`). */
    const firstID: ComponentTypeID
    var nextID: ComponentTypeID
    var idMap: map<ComponentType, ComponentTypeID>
    var maskMap: seq<EntityMask>
    var componentPools: seq<CP.ComponentPool<V>>

    /** The contents of each pool, in pool order. */
    ghost var Stores: seq<map<EntityID, V>>
    ghost var Repr: set<object>

    /**
     * The registry invariant: the type table holds, there is one pool per
     * mask, and the pools are distinct valid sparse sets whose contents are
     * `Stores`.
     */
    ghost predicate Valid()
      reads this, Repr
    {
      && this in Repr
      && TypeTable(maxID, firstID, nextID, idMap, maskMap)
      && |componentPools| == |maskMap|
      && PoolsValid()
    }

    /** The pools are distinct valid sparse sets in `Repr` whose contents are `Stores`. */
    ghost predicate PoolsValid()
      reads this, Repr
    {
      && |componentPools| == |Stores|
      && (forall k :: 0 <= k < |componentPools| ==>
            componentPools[k] in Repr && componentPools[k].Valid() && componentPools[k].Contents == Stores[k])
      && (forall i, j :: 0 <= i < j < |componentPools| ==> componentPools[i] != componentPools[j])
    }

    /** The pool position of a registered type. */
    function Slot(t: ComponentType): (k: nat)
      reads this, Repr
      requires Valid() && t in idMap
      ensures k < |componentPools|
    {
      idMap[t] - firstID
    }

    /** The contents of a registered type's pool. */
    ghost function Store(t: ComponentType): map<EntityID, V>
      reads this, Repr
      requires Valid() && t in idMap
    {
      Stores[Slot(t)]
    }

    constructor (maxid: ComponentTypeID, nextid: ComponentTypeID)
      requires maxid <= MASK_WIDTH
      ensures Valid() && fresh(Repr)
      ensures maxID == maxid && firstID == nextid && nextID == nextid
      ensures idMap == map[] && maskMap == [] && componentPools == [] && Stores == []
    {
      maxID, firstID, nextID := maxid, nextid, nextid;
      idMap, maskMap, componentPools := map[], [], [];
      Stores := [];
      Repr := {this};
    }

    /** The number of pools, which is the number of registered types. */
    function Size(): (n: nat)
      reads this, Repr
      requires Valid()
      ensures n == |idMap| == |Stores|
    {
      |componentPools|
    }

    /** No type is registered. */
    function Empty(): (r: bool)
      reads this, Repr
      requires Valid()
      ensures r <==> Size() == 0
      ensures r <==> forall t :: !IsComponentTypeRegistered(t)
    {
      assert |componentPools| == 0 ==> forall t :: t !in idMap by {
        forall t | t in idMap
          ensures |idMap| > 0
        {
          assert |idMap - {t}| == |idMap| - 1;
        }
      }
      assert |componentPools| != 0 ==> exists t :: IsComponentTypeRegistered(t) by {
        if |componentPools| != 0 {
          assert |idMap.Keys| == |idMap| > 0;
          var t :| t in idMap.Keys;
          assert IsComponentTypeRegistered(t);
        }
      }
      |componentPools| == 0
    }

    /** `t` was registered. */
    function IsComponentTypeRegistered(t: ComponentType): (r: bool)
      reads this
      ensures r <==> t in idMap
    {
      t in idMap
    }

    /**
     * Register `t`: hand it identifier `nextID`, the mask with only bit
     * `nextID` set, and a new empty pool. DuplicateType when `t` is already
     * registered and TypeLimit once `nextID` has reached `maxID`; either way
     * nothing changes.
     */
    method RegisterComponentType(t: ComponentType) returns (o: Outcome)
      requires Valid()
      modifies this
      ensures Valid() && fresh(Repr - old(Repr))
      ensures o == if t in old(idMap) then Fail(DuplicateType)
                   else if old(nextID) >= maxID then Fail(TypeLimit)
                   else Pass
      ensures o.Fail? ==> unchanged(this)
      ensures o.Pass? ==>
                && idMap == old(idMap)[t := old(nextID)]
                && nextID == old(nextID) + 1
                && maskMap == old(maskMap) + [Bit(old(nextID))]
                && Stores == old(Stores) + [map[]]
                && componentPools[..|old(componentPools)|] == old(componentPools)
      ensures o != Fail(TypeLimit) ==> IsComponentTypeRegistered(t)
    {
      if t in idMap {
        return Fail(DuplicateType);
      }
      if nextID >= maxID {
        return Fail(TypeLimit);
      }
      RegisterKeeps(maxID, firstID, nextID, idMap, maskMap, t);
      var id := nextID;
      nextID := nextID + 1;
      idMap := idMap[t := id];
      maskMap := maskMap + [Bit(id)];
      AppendPool();
      o := Pass;
    }

    /** Append a new empty pool; only the pools, `Stores` and `Repr` change. */
    method AppendPool()
      requires this in Repr && PoolsValid()
      modifies this
      ensures this in Repr && PoolsValid() && fresh(Repr - old(Repr))
      ensures Stores == old(Stores) + [map[]]
      ensures componentPools[..|old(componentPools)|] == old(componentPools)
      ensures |componentPools| == |old(componentPools)| + 1
      ensures idMap == old(idMap) && maskMap == old(maskMap) && nextID == old(nextID)
    {
      var pool := new CP.ComponentPool<V>();
      componentPools := componentPools + [pool];
      Stores := Stores + [map[]];
      Repr := Repr + {pool};
    }

    /** The mask of a registered type, a single bit; UnregisteredType otherwise. */
    function GetComponentTypeMask(t: ComponentType): (r: Result<EntityMask>)
      reads this, Repr
      requires Valid()
      ensures r.Ok? <==> t in idMap
      ensures r.Ok? ==> r.value == Bit(idMap[t]) && SingleBit(r.value)
      ensures r.Err? ==> r.error == UnregisteredType
    {
      if t in idMap then
        var m := maskMap[Slot(t)];
        BitIsSingle(idMap[t]);
        Ok(m)
      else
        Err(UnregisteredType)
    }

    /** Distinct registered types have masks with no bit in common. */
    lemma MasksDisjoint(t1: ComponentType, t2: ComponentType)
      requires Valid() && t1 in idMap && t2 in idMap && t1 != t2
      ensures GetComponentTypeMask(t1).value & GetComponentTypeMask(t2).value == 0
    {
      BitsDisjoint(idMap[t1], idMap[t2]);
    }

    /**
     * `id` holds a component of type `t`; an unregistered type holds
     * nothing.
     */
    function HasComponent(t: ComponentType, id: EntityID): (r: bool)
      reads this, Repr
      requires Valid()
      ensures r <==> t in idMap && id in Store(t)
    {
      t in idMap && componentPools[Slot(t)].HasComponent(id)
    }

    /** The component of type `t` of `id`; UnregisteredType or MissingComponent otherwise. */
    function GetComponent(t: ComponentType, id: EntityID): (r: Result<V>)
      reads this, Repr
      requires Valid()
      ensures r.Ok? <==> HasComponent(t, id)
      ensures r.Ok? ==> r.value == Store(t)[id]
      ensures r.Err? ==> r.error == if t in idMap then MissingComponent else UnregisteredType
    {
      if t in idMap then componentPools[Slot(t)].GetComponent(id) else Err(UnregisteredType)
    }

    /** The pool of `t` has room for one more component. */
    predicate HasRoom(t: ComponentType)
      reads this, Repr
      requires Valid()
    {
      t in idMap ==> |componentPools[Slot(t)].densePool| < NULL_COMPONENT_INDEX
    }

    /**
     * Give `id` the component `v` of type `t`; only the pool of `t` changes.
     * UnregisteredType, changing nothing, when `t` was not registered.
     */
    method AssignComponent(t: ComponentType, id: EntityID, v: V) returns (o: Outcome)
      requires Valid() && HasRoom(t)
      modifies Repr
      ensures Valid() && Repr == old(Repr)
      ensures o == if t in old(idMap) then Pass else Fail(UnregisteredType)
      ensures idMap == old(idMap) && maskMap == old(maskMap) && nextID == old(nextID)
      ensures componentPools == old(componentPools)
      ensures o.Fail? ==> Stores == old(Stores)
      ensures o.Pass? ==> Stores == Put(old(Stores), Slot(t), id, v)
      ensures o.Pass? ==> HasComponent(t, id) && GetComponent(t, id) == Ok(v)
    {
      if t !in idMap {
        return Fail(UnregisteredType);
      }
      PutInPool(Slot(t), id, v);
      o := Pass;
    }

    /**
     * Take the component of type `t` away from `id`; only the pool of `t`
     * changes. UnregisteredType or MissingComponent, changing nothing, when
     * there is none.
     */
    method UnassignComponent(t: ComponentType, id: EntityID) returns (o: Outcome)
      requires Valid()
      modifies Repr
      ensures Valid() && Repr == old(Repr)
      ensures o == if t !in old(idMap) then Fail(UnregisteredType)
                   else if id !in old(Store(t)) then Fail(MissingComponent)
                   else Pass
      ensures idMap == old(idMap) && maskMap == old(maskMap) && nextID == old(nextID)
      ensures componentPools == old(componentPools)
      ensures o.Fail? ==> Stores == old(Stores)
      ensures o.Pass? ==> Stores == Drop(old(Stores), Slot(t), id)
      ensures !HasComponent(t, id)
    {
      if t !in idMap {
        return Fail(UnregisteredType);
      }
      o := TakeFromPool(Slot(t), id);
    }

    /** Pool `k` gives `id` the component `v`; nothing else changes. */
    method PutInPool(k: nat, id: EntityID, v: V)
      requires Valid() && k < |componentPools| && |componentPools[k].densePool| < NULL_COMPONENT_INDEX
      modifies this, componentPools[k]
      ensures Valid() && Repr == old(Repr)
      ensures idMap == old(idMap) && maskMap == old(maskMap) && nextID == old(nextID)
      ensures componentPools == old(componentPools)
      ensures Stores == Put(old(Stores), k, id, v)
    {
      var pool := componentPools[k];
      pool.AssignComponent(id, v);
      Stores := Stores[k := pool.Contents];
      OthersKept(k);
    }

    /** A pool other than the one at `k`, unchanged since the method began, is still valid and in step. */
    twostate lemma OthersKept(k: nat)
      requires old(Valid()) && k < |componentPools| && componentPools == old(componentPools)
      requires Repr == old(Repr) && |Stores| == |old(Stores)|
      requires forall j :: 0 <= j < |componentPools| && j != k ==> Stores[j] == old(Stores)[j]
      requires forall j :: 0 <= j < |componentPools| && j != k ==> unchanged(componentPools[j])
      ensures forall j :: 0 <= j < |componentPools| && j != k ==>
                componentPools[j].Valid() && componentPools[j].Contents == Stores[j]
    {
    }

    /** Pool `k` drops the component of `id` and says whether it held one; nothing else changes. */
    method TakeFromPool(k: nat, id: EntityID) returns (o: Outcome)
      requires Valid() && k < |componentPools|
      modifies this, componentPools[k]
      ensures Valid() && Repr == old(Repr)
      ensures idMap == old(idMap) && maskMap == old(maskMap) && nextID == old(nextID)
      ensures componentPools == old(componentPools)
      ensures Stores == Drop(old(Stores), k, id)
      ensures o == if id in old(Stores)[k] then Pass else Fail(MissingComponent)
      ensures o.Fail? ==> Stores == old(Stores)
    {
      var pool := componentPools[k];
      o := pool.UnassignComponent(id);
      Stores := Stores[k := pool.Contents];
      OthersKept(k);
    }

    /**
     * Tell every pool, in pool order, that `id` was destroyed: each pool
     * drops the component of `id`, and a pool without one is left as it is.
     * The registered types and every other identifier's data stay unchanged.
     */
    method EntityDestroyed(id: EntityID)
      requires Valid()
      modifies Repr
      ensures Valid() && Repr == old(Repr)
      ensures idMap == old(idMap) && maskMap == old(maskMap) && nextID == old(nextID)
      ensures componentPools == old(componentPools)
      ensures Stores == WithoutEntity(old(Stores), id)
      ensures forall t :: !HasComponent(t, id)
      ensures (forall k :: 0 <= k < |old(Stores)| ==> id in old(Stores)[k]) ==>
                DestroyedAsWritten(old(Stores), id, 0) == (Pass, Stores)
    {
      var k := 0;
      while k < |componentPools|
        invariant 0 <= k <= |componentPools|
        invariant Valid() && Repr == old(Repr)
        invariant idMap == old(idMap) && maskMap == old(maskMap) && nextID == old(nextID)
        invariant componentPools == old(componentPools)
        invariant |Stores| == |old(Stores)|
        invariant forall j :: 0 <= j < k ==> Stores[j] == old(Stores)[j] - {id}
        invariant forall j :: k <= j < |Stores| ==> Stores[j] == old(Stores)[j]
      {
        var _ := TakeFromPool(k, id);
        k := k + 1;
      }
      assert Stores == WithoutEntity(old(Stores), id);
      if forall k :: 0 <= k < |old(Stores)| ==> id in old(Stores)[k] {
        BroadcastPassesAsWritten(old(Stores), id, 0);
        assert DestroyedAsWritten(old(Stores), id, 0).1 == Stores;
      }
    }
  }
}
