/**
 * The storage of one component type: a sparse set made of `sparseMap`
 * (entity identifier to dense slot, or NULL_COMPONENT_INDEX), `denseMap`
 * (dense slot to entity identifier) and `densePool` (the component values,
 * packed). The abstract view `Contents` maps each identifier that holds a
 * component to its value.
 */
module ComponentPool {
  import opened Types

  /** `sparse` extended, if needed, with NULL entries so that `id` indexes it. */
  function Grown(sparse: seq<ComponentIndex>, id: EntityID): (r: seq<ComponentIndex>)
    ensures |r| == if id < |sparse| then |sparse| else id + 1
    ensures r[..|sparse|] == sparse
    ensures forall j :: |sparse| <= j < |r| ==> r[j] == NULL_COMPONENT_INDEX
  {
    if id < |sparse| then sparse else sparse + seq(id + 1 - |sparse|, _ => NULL_COMPONENT_INDEX)
  }

  /** `id` has a non-NULL entry in `sparse`. */
  ghost predicate Slotted(sparse: seq<ComponentIndex>, id: EntityID)
  {
    id < |sparse| && sparse[id] != NULL_COMPONENT_INDEX
  }

  /**
   * The sparse-set invariant over the three vectors and the abstract
   * contents: the dense vectors have one length, the sparse and dense maps
   * are inverse to each other, and `contents` is what they store.
   */
  ghost predicate SparseSet<V>(sparse: seq<ComponentIndex>, dense: seq<EntityID>, pool: seq<V>,
                               contents: map<EntityID, V>)
  {
    && |dense| == |pool| <= NULL_COMPONENT_INDEX
    && (forall i :: 0 <= i < |dense| ==> dense[i] < |sparse| && sparse[dense[i]] == i)
    && (forall id: EntityID :: Slotted(sparse, id) ==> sparse[id] < |dense| && dense[sparse[id]] == id)
    && (forall id: EntityID :: id in contents <==> Slotted(sparse, id))
    && (forall id :: id in contents ==> contents[id] == pool[sparse[id]])
    && |contents| == |pool|
  }

  /** Overwriting the value of a present identifier keeps the invariant. */
  lemma OverwriteKeeps<V>(sparse: seq<ComponentIndex>, dense: seq<EntityID>, pool: seq<V>,
                          contents: map<EntityID, V>, id: EntityID, v: V)
    requires SparseSet(sparse, dense, pool, contents) && id in contents
    ensures SparseSet(sparse, dense, pool[sparse[id] := v], contents[id := v])
  {
    assert contents[id := v].Keys == contents.Keys;
  }

  /** Appending the value of an absent identifier keeps the invariant. */
  lemma AppendKeeps<V>(sparse: seq<ComponentIndex>, dense: seq<EntityID>, pool: seq<V>,
                       contents: map<EntityID, V>, id: EntityID, v: V)
    requires SparseSet(sparse, dense, pool, contents) && id !in contents
    requires |pool| < NULL_COMPONENT_INDEX
    ensures SparseSet(Grown(sparse, id)[id := |pool|], dense + [id], pool + [v], contents[id := v])
  {
    var g := Grown(sparse, id);
    var s' := g[id := |pool|];
    forall x: EntityID
      ensures x in contents[id := v] <==> Slotted(s', x)
    {
      if x != id && x < |sparse| {
        assert s'[x] == sparse[x];
      }
    }
  }

  /** Swap-and-pop removal of a present identifier keeps the invariant. */
  lemma SwapPopKeeps<V>(sparse: seq<ComponentIndex>, dense: seq<EntityID>, pool: seq<V>,
                        contents: map<EntityID, V>, id: EntityID)
    requires SparseSet(sparse, dense, pool, contents) && id in contents
    ensures var slot, last := sparse[id], |dense| - 1;
            var owner := dense[last];
            SparseSet(sparse[owner := slot][id := NULL_COMPONENT_INDEX],
                      dense[slot := owner][..last],
                      pool[slot := pool[last]][..last],
                      contents - {id})
  {
    var slot, last := sparse[id], |dense| - 1;
    var owner := dense[last];
    var s' := sparse[owner := slot][id := NULL_COMPONENT_INDEX];
    var d' := dense[slot := owner][..last];
    var p' := pool[slot := pool[last]][..last];
    var c' := contents - {id};
    assert c'.Keys == contents.Keys - {id};
    assert |c'| == |p'|;
    forall i | 0 <= i < |d'|
      ensures d'[i] < |s'| && s'[d'[i]] == i
    {
      if i != slot {
        assert d'[i] == dense[i];
      }
    }
    forall x: EntityID | Slotted(s', x)
      ensures s'[x] < |d'| && d'[s'[x]] == x
    {
      if x == owner {
        assert s'[x] == slot < last;
      } else {
        assert s'[x] == sparse[x] && dense[sparse[x]] == x;
      }
    }
    forall x: EntityID
      ensures x in c' <==> Slotted(s', x)
    {
      if x != id && x != owner && x < |sparse| {
        assert s'[x] == sparse[x];
      }
    }
    forall x | x in c'
      ensures c'[x] == p'[s'[x]]
    {
      if x == owner {
        assert s'[x] == slot;
      } else {
        assert s'[x] == sparse[x];
      }
    }
  }

  class ComponentPool<V> {
    var sparseMap: seq<ComponentIndex>
    var denseMap: seq<EntityID>
    var densePool: seq<V>

    /** The identifiers that hold a component, with their values. */
    ghost var Contents: map<EntityID, V>

    /** The sparse-set invariant holds of the three vectors and `Contents`. */
    ghost predicate Valid()
      reads this
    {
      SparseSet(sparseMap, denseMap, densePool, Contents)
    }

    constructor ()
      ensures Valid() && Contents == map[]
      ensures sparseMap == [] && denseMap == [] && densePool == []
    {
      sparseMap, denseMap, densePool := [], [], [];
      Contents := map[];
    }

    /** The number of components in the pool. */
    function Size(): (n: nat)
      reads this
      requires Valid()
      ensures n == |Contents|
    {
      |densePool|
    }

    /** The pool holds no component. */
    function Empty(): (r: bool)
      reads this
      requires Valid()
      ensures r <==> Contents == map[]
    {
      assert Contents == map[] <==> |Contents| == 0 by {
        if |Contents| == 0 {
          assert forall id :: id !in Contents;
        }
      }
      |densePool| == 0
    }

    /** `id` holds a component; identifiers beyond the sparse map do not. */
    function HasComponent(id: EntityID): (r: bool)
      reads this
      requires Valid()
      ensures r <==> id in Contents
    {
      id < |sparseMap| && sparseMap[id] != NULL_COMPONENT_INDEX
    }

    /** The component of `id`, or MissingComponent when it has none. */
    function GetComponent(id: EntityID): (r: Result<V>)
      reads this
      requires Valid()
      ensures r.Ok? <==> id in Contents
      ensures r.Ok? ==> r.value == Contents[id]
      ensures r.Err? ==> r.error == MissingComponent
    {
      if HasComponent(id) then Ok(densePool[sparseMap[id]]) else Err(MissingComponent)
    }

    /**
     * Give `id` the component `component`: overwrite in place when it has
     * one, otherwise grow the sparse map as needed and append.
     */
    method AssignComponent(id: EntityID, component: V)
      requires Valid()
      requires |densePool| < NULL_COMPONENT_INDEX
      modifies this
      ensures Valid()
      ensures Contents == old(Contents)[id := component]
      ensures HasComponent(id) && GetComponent(id) == Ok(component)
      ensures id in old(Contents) ==>
                && sparseMap == old(sparseMap)
                && denseMap == old(denseMap)
                && densePool == old(densePool)[old(sparseMap)[id] := component]
      ensures id !in old(Contents) ==>
                && sparseMap == Grown(old(sparseMap), id)[id := old(|densePool|)]
                && denseMap == old(denseMap) + [id]
                && densePool == old(densePool) + [component]
    {
      if id >= |sparseMap| {
        sparseMap := Grown(sparseMap, id);
      }
      if sparseMap[id] != NULL_COMPONENT_INDEX {
        OverwriteKeeps(sparseMap, denseMap, densePool, Contents, id, component);
        densePool := densePool[sparseMap[id] := component];
      } else {
        AppendKeeps(old(sparseMap), denseMap, densePool, Contents, id, component);
        sparseMap := sparseMap[id := |densePool|];
        denseMap := denseMap + [id];
        densePool := densePool + [component];
      }
      Contents := Contents[id := component];
    }

    /**
     * Remove the component of `id` by swap-and-pop: the last value and its
     * owner move into the vacated slot, the owner's sparse entry follows, the
     * back is popped and `id`'s sparse entry becomes NULL. Without a
     * component, nothing changes and MissingComponent is reported.
     */
    method UnassignComponent(id: EntityID) returns (o: Outcome)
      requires Valid()
      modifies this
      ensures Valid()
      ensures o == if id in old(Contents) then Pass else Fail(MissingComponent)
      ensures Contents == old(Contents) - {id}
      ensures id !in old(Contents) ==> unchanged(this)
      ensures id in old(Contents) ==>
                var slot, last := old(sparseMap)[id], |old(denseMap)| - 1;
                var owner := old(denseMap)[last];
                && denseMap == old(denseMap)[slot := owner][..last]
                && densePool == old(densePool)[slot := old(densePool)[last]][..last]
                && sparseMap == old(sparseMap)[owner := slot][id := NULL_COMPONENT_INDEX]
    {
      if !HasComponent(id) {
        return Fail(MissingComponent);
      }
      SwapPopKeeps(sparseMap, denseMap, densePool, Contents, id);
      var slot := sparseMap[id];
      var last := |denseMap| - 1;
      var owner := denseMap[last];
      densePool := densePool[slot := densePool[last]];
      denseMap := denseMap[slot := owner];
      densePool := densePool[..last];
      denseMap := denseMap[..last];
      sparseMap := sparseMap[owner := slot];
      sparseMap := sparseMap[id := NULL_COMPONENT_INDEX];
      Contents := Contents - {id};
      o := Pass;
    }
  }
}
