/**
 * PoolManager: the process-wide registry from a pool id to a pool. The C#
 * static class becomes one PoolManager object; its `Pools` dictionary is the
 * `pools` map, whose values carry their own `objectType` tag (IObjectPool's
 * ObjectType). Failures the source only logs leave the registry unchanged or
 * yield None (C#'s null).
 *
 * The scene side is kept to what the registry relies on: the lazily created
 * root node, and the "<poolId>_Container" children created under it, in
 * sibling order, so that Transform.Find yields the first one with a name.
 */
module PoolRegistry {
  import opened Wrappers
  import opened ObjectPool

  /** A "<poolId>_Container" node under the registry's root. */
  datatype Container = Container(poolId: string, node: Transform)

  /** The position of the first container named after poolId among the root's children. */
  function FirstNamed(containers: seq<Container>, poolId: string): (r: Option<nat>)
    ensures r.None? <==> forall i | 0 <= i < |containers| :: containers[i].poolId != poolId
    ensures r.Some? ==> r.value < |containers| && containers[r.value].poolId == poolId
    ensures r.Some? ==> forall i | 0 <= i < r.value :: containers[i].poolId != poolId
    decreases |containers|
  {
    if containers == [] then None
    else if containers[0].poolId == poolId then Some(0)
    else match FirstNamed(containers[1..], poolId)
      case None => None
      case Some(i) => Some(i + 1)
  }

  /**
   * Transform.Find of "<poolId>_Container" under the root. A name holding '/'
   * is read as a path through nested nodes, so it never names a container,
   * which is a direct child of the root; otherwise the first container named
   * after poolId is found.
   */
  function FindContainer(containers: seq<Container>, poolId: string): (r: Option<nat>)
    ensures '/' in poolId ==> r.None?
    ensures '/' !in poolId ==> (r.None? <==> forall i | 0 <= i < |containers| :: containers[i].poolId != poolId)
    ensures r.Some? ==> r.value < |containers| && containers[r.value].poolId == poolId
    ensures r.Some? ==> forall i | 0 <= i < r.value :: containers[i].poolId != poolId
  {
    if '/' in poolId then None else FirstNamed(containers, poolId)
  }

  /** The children left when Destroy removes the first container named after poolId, if any. */
  function WithoutContainer(containers: seq<Container>, poolId: string): seq<Container> {
    match FindContainer(containers, poolId)
    case None => containers
    case Some(i) => containers[..i] + containers[i + 1..]
  }

  /** Ids with no repeats: each one differs from all before it. */
  predicate Distinct(ids: seq<string>)
    decreases |ids|
  {
    ids == [] || (Distinct(ids[..|ids| - 1]) && ids[|ids| - 1] !in ids[..|ids| - 1])
  }

  /** Appending an id not yet listed keeps the ids distinct. */
  lemma DistinctAppend(ids: seq<string>, id: string)
    requires Distinct(ids) && id !in ids
    ensures Distinct(ids + [id])
  {
    assert (ids + [id])[..|ids|] == ids;
  }

  /** The children left after destroying the container of each id of order, in that order. */
  function WithoutEach(containers: seq<Container>, order: seq<string>): seq<Container>
    decreases |order|
  {
    if order == [] then containers
    else WithoutContainer(WithoutEach(containers, order[..|order| - 1]), order[|order| - 1])
  }

  /** Destroying one more container extends the record of destroyed containers by one step. */
  lemma WithoutEachAppend(containers: seq<Container>, order: seq<string>, id: string)
    ensures WithoutEach(containers, order + [id]) == WithoutContainer(WithoutEach(containers, order), id)
  {
    assert (order + [id])[..|order|] == order;
  }

  /**
   * Part way through disposing all of registered: the pools still registered
   * are the untouched remainder, whose ids are the snapshot's ids still to
   * visit, and done lists each of the others once.
   */
  predicate Progress(registered: map<string, GameObjectPool>, remaining: map<string, GameObjectPool>, ids: set<string>, done: seq<string>) {
    && remaining.Keys == ids
    && (forall id | id in remaining :: id in registered && remaining[id] == registered[id])
    && (forall a, b | a in registered && b in registered && a != b :: registered[a] != registered[b])
    && Distinct(done)
    && (forall id | id in done :: id in registered && id !in remaining)
    && (forall id | id in registered :: id in remaining || id in done)
  }

  /** Disposing one more registered id moves it from the remainder to the done list. */
  lemma ProgressStep(registered: map<string, GameObjectPool>, remaining: map<string, GameObjectPool>, ids: set<string>, done: seq<string>, id: string)
    requires Progress(registered, remaining, ids, done) && id in remaining
    ensures Progress(registered, remaining - {id}, ids - {id}, done + [id])
  {
    DistinctAppend(done, id);
  }

  /**
   * Destroying the container of an id finds the one just appended when no
   * older container carries that name, and leaves the earlier children as
   * they were.
   */
  lemma WithoutAppendedContainer(containers: seq<Container>, c: Container)
    requires '/' !in c.poolId && FindContainer(containers, c.poolId).None?
    ensures FindContainer(containers + [c], c.poolId) == Some(|containers|)
    ensures WithoutContainer(containers + [c], c.poolId) == containers
  {
    assert (containers + [c])[|containers|] == c;
    assert forall i | 0 <= i < |containers| :: (containers + [c])[i] == containers[i];
    assert (containers + [c])[..|containers|] == containers;
  }

  /** A pool whose teardown ran: nothing active, idle or tracked any more. */
  ghost predicate Drained(pool: GameObjectPool)
    reads pool
  {
    pool.activeObjects == [] && pool.allCreatedObjects == [] && pool.free == []
  }

  /** The fields of a pool that its teardown reads or changes, as one value. */
  datatype PoolState = PoolState(
    free: seq<Instance>, activeObjects: seq<Instance>, allCreatedObjects: seq<Instance>, nextSerial: nat,
    shown: set<Instance>, parentOf: map<Instance, Transform>, destroyed: set<Instance>)

  ghost function State(pool: GameObjectPool): PoolState
    reads pool
  {
    PoolState(pool.free, pool.activeObjects, pool.allCreatedObjects, pool.nextSerial,
              pool.shown, pool.parentOf, pool.destroyed)
  }

  /**
   * What GameObjectPool.Dispose did to a pool that was in state before: it
   * is drained, every instance it created, held idle or had queued is
   * destroyed, the queued ones are hidden and reparented to the pool root,
   * and no instance was created.
   */
  ghost predicate DisposedFrom(before: PoolState, pool: GameObjectPool)
    reads pool
  {
    && Drained(pool)
    && pool.destroyed == before.destroyed + Members(before.allCreatedObjects) + Members(before.free)
                         + Members(before.activeObjects)
    && pool.shown == before.shown - Members(before.activeObjects)
    && pool.parentOf == Reparent(before.parentOf, before.activeObjects, pool.poolRoot)
    && pool.nextSerial == before.nextSerial
  }

  /** DisposedFrom, from the pool's state at the start of the call. */
  twostate predicate Disposed(pool: GameObjectPool)
    reads pool
  {
    DisposedFrom(old(State(pool)), pool)
  }

  class PoolManager {
    var pools: map<string, GameObjectPool>
    /** The root node, created on first use. */
    var poolRoot: Option<Transform>
    /** The live container nodes under the root, in sibling order. */
    var containers: seq<Container>
    /** The next scene node `new GameObject(...)` creates. */
    var nextNode: nat

    ghost predicate Valid()
      reads this, pools.Values
    {
      && (forall id | id in pools :: pools[id].Valid())
      && (forall a, b | a in pools && b in pools && a != b :: pools[a] != pools[b])
      && (pools != map[] ==> poolRoot.Some?)
    }

    constructor ()
      ensures Valid()
      ensures pools == map[] && poolRoot == None && containers == []
    {
      pools := map[];
      poolRoot := None;
      containers := [];
      nextNode := 0;
    }

    /** The PoolRoot property: the root node, created on first access. */
    method PoolRoot() returns (root: Transform)
      modifies this
      ensures poolRoot == Some(root)
      ensures old(poolRoot).Some? ==> root == old(poolRoot).value && nextNode == old(nextNode)
      ensures old(poolRoot).None? ==> root == old(nextNode) && nextNode == old(nextNode) + 1
      ensures pools == old(pools) && containers == old(containers)
    {
      if poolRoot.Some? {
        return poolRoot.value;
      }
      root := nextNode;
      nextNode := nextNode + 1;
      poolRoot := Some(root);
    }

    /**
     * Registers a new pool under poolId. An empty or already registered id
     * changes nothing. Otherwise a container is created under the root; if
     * the pool's constructor throws, that container is destroyed again and
     * nothing is registered.
     */
    method CreatePool(poolId: string, objectType: TypeTag, prefab: Option<Prefab>, defaultCapacity: int, maxSize: int)
      requires Valid()
      modifies this
      ensures Valid()
      ensures poolId == [] || poolId in old(pools) ==>
        && pools == old(pools) && containers == old(containers)
        && poolRoot == old(poolRoot) && nextNode == old(nextNode)
      ensures poolId != [] && poolId !in old(pools) ==> poolRoot.Some?
      ensures poolId != [] && poolId !in old(pools) && !(prefab.Some? && 1 <= maxSize && 0 <= defaultCapacity) ==>
        pools == old(pools) && containers == old(containers)
      ensures poolId != [] && poolId !in old(pools) && prefab.Some? && 1 <= maxSize && 0 <= defaultCapacity ==>
        && poolId in pools && fresh(pools[poolId])
        && pools == old(pools)[poolId := pools[poolId]]
        && pools[poolId].objectType == objectType && pools[poolId].maxActiveObjects == maxSize
        && pools[poolId].activeObjects == [] && pools[poolId].free == [] && pools[poolId].allCreatedObjects == []
        && containers == old(containers) + [Container(poolId, pools[poolId].poolRoot)]
    {
      if poolId == [] {
        return;
      }
      if poolId in pools {
        return;
      }
      var container := Container(poolId, nextNode);
      nextNode := nextNode + 1;
      var root := PoolRoot();
      containers := containers + [container];

      var created := NewPool(objectType, prefab, Some(container.node), defaultCapacity, maxSize);
      match created {
        case Success(pool) =>
          pools := pools[poolId := pool];
        case Failure(_) =>
          containers := containers[..|containers| - 1];
      }
    }

    /**
     * Takes an instance from the pool registered under poolId, provided the
     * pool holds the requested type; the parent defaults to the root. An
     * unknown id or a type mismatch yields None and touches no pool.
     */
    method Get(poolId: string, requested: TypeTag, parent: Option<Transform>) returns (r: Option<Instance>)
      requires Valid()
      modifies this, if poolId in pools && pools[poolId].objectType == requested then {pools[poolId]} else {}
      ensures Valid() && pools == old(pools) && containers == old(containers)
      ensures r.Some? <==> poolId in pools && pools[poolId].objectType == requested
      ensures r.None? ==> poolRoot == old(poolRoot) && nextNode == old(nextNode)
      ensures r.Some? ==>
        var pool := pools[poolId];
        && r.value.kind == requested && pool.Valid() && r.value in pool.parentOf
        && (old(pool.free) == [] ==>
          && r.value == Instance(requested, old(pool.nextSerial)) && r.value !in old(pool.allCreatedObjects)
          && pool.allCreatedObjects == old(pool.allCreatedObjects) + [r.value]
          && pool.nextSerial == old(pool.nextSerial) + 1)
        && (old(pool.free) != [] ==>
          && r.value == old(pool.free)[|old(pool.free)| - 1]
          && pool.allCreatedObjects == old(pool.allCreatedObjects) && pool.nextSerial == old(pool.nextSerial))
        && (var (released, kept) := Evict(old(pool.activeObjects), pool.maxActiveObjects);
          && pool.activeObjects == kept + [r.value]
          && pool.free == Popped(old(pool.free)) + released
          && pool.shown == (old(pool.shown) + {r.value}) - Members(released)
          && pool.parentOf == Reparent(old(pool.parentOf), released, pool.poolRoot)[r.value := pool.parentOf[r.value]])
        && pool.destroyed == old(pool.destroyed)
        && (parent.Some? ==> pool.parentOf[r.value] == parent.value && poolRoot == old(poolRoot))
        && (parent.None? ==> poolRoot.Some? && pool.parentOf[r.value] == poolRoot.value)
    {
      if poolId !in pools {
        return None;
      }
      var pool := pools[poolId];
      if pool.objectType != requested {
        return None;
      }
      var target: Transform;
      if parent.Some? {
        target := parent.value;
      } else {
        target := PoolRoot();
      }
      var item := pool.Get(target);
      return Some(item);
    }

    /**
     * Returns obj to the pool registered under poolId when obj's exact type
     * is the pool's; an unknown id or a type mismatch does nothing.
     */
    method Release(poolId: string, obj: Instance)
      requires Valid()
      modifies if poolId in pools && obj.kind == pools[poolId].objectType then {pools[poolId]} else {}
      ensures Valid()
      ensures poolId in pools && obj.kind == pools[poolId].objectType ==>
        var pool := pools[poolId];
        && pool.free == old(pool.free) + [obj]
        && pool.activeObjects == old(pool.activeObjects)
        && pool.allCreatedObjects == old(pool.allCreatedObjects) && pool.nextSerial == old(pool.nextSerial)
        && pool.shown == old(pool.shown) - {obj}
        && pool.parentOf == old(pool.parentOf)[obj := pool.poolRoot]
        && pool.destroyed == old(pool.destroyed)
    {
      if poolId !in pools {
        return;
      }
      var pool := pools[poolId];
      if obj.kind != pool.objectType {
        return;
      }
      pool.Release(obj);
    }

    /**
     * Tears down the pool registered under poolId and destroys its container;
     * an unknown id does nothing. The entry is removed in every case, also when
     * the teardown raises (`teardownRaises`), in which case the container is
     * left in place.
     */
    method DisposePool(poolId: string, teardownRaises: bool)
      requires Valid()
      modifies this, if poolId in pools then {pools[poolId]} else {}
      ensures Valid()
      ensures pools == old(pools) - {poolId}
      ensures poolRoot == old(poolRoot) && nextNode == old(nextNode)
      ensures poolId !in old(pools) || teardownRaises ==> containers == old(containers)
      ensures poolId in old(pools) && !teardownRaises ==>
        && Disposed(old(pools[poolId]))
        && containers == WithoutContainer(old(containers), poolId)
    {
      if poolId !in pools {
        return;
      }
      var pool := pools[poolId];
      if !teardownRaises {
        pool.Dispose();
        var root := PoolRoot();
        containers := WithoutContainer(containers, poolId);
      }
      pools := pools - {poolId};
    }

    /** One iteration of DisposeAllPools: DisposePool on a registered id whose teardown does not raise. */
    method DisposeOne(poolId: string)
      requires Valid() && poolId in pools
      modifies this, pools[poolId]
      ensures Valid() && pools == old(pools) - {poolId}
      ensures Disposed(old(pools)[poolId])
      ensures containers == WithoutContainer(old(containers), poolId)
      ensures poolRoot == old(poolRoot) && nextNode == old(nextNode)
    {
      DisposePool(poolId, false);
    }

    /**
     * Disposes every registered pool, walking a snapshot of the ids in the
     * dictionary's order (`order`, which the source leaves unspecified).
     */
    method DisposeAllPools() returns (ghost order: seq<string>)
      requires Valid()
      modifies this, pools.Values
      ensures Valid() && pools == map[]
      ensures forall id | id in old(pools) :: Disposed(old(pools)[id])
      ensures Distinct(order) && forall id :: id in order <==> id in old(pools)
      ensures containers == WithoutEach(old(containers), order)
      ensures poolRoot == old(poolRoot) && nextNode == old(nextNode)
    {
      var ids := pools.Keys;
      order := [];
      ghost var before := map id | id in pools :: State(pools[id]);
      assert forall id | id in old(pools) :: before[id] == old(State(pools[id]));
      while ids != {}
        invariant Valid()
        invariant Progress(old(pools), pools, ids, order)
        invariant before.Keys == old(pools).Keys
        invariant forall id | id in ids :: State(old(pools)[id]) == before[id]
        invariant forall id | id in old(pools) && id !in ids :: DisposedFrom(before[id], old(pools)[id])
        invariant containers == WithoutEach(old(containers), order)
        invariant poolRoot == old(poolRoot) && nextNode == old(nextNode)
        decreases ids
      {
        var id :| id in ids;
        DisposeNext(old(pools), before, old(containers), ids, order, id);
        ids := ids - {id};
        order := order + [id];
      }
    }

    /**
     * One step of DisposeAllPools: disposes the pool of the snapshot's next
     * id, which moves from the ids still to visit to the done list.
     */
    method DisposeNext(ghost registered: map<string, GameObjectPool>, ghost before: map<string, PoolState>,
                       ghost containers0: seq<Container>, ids: set<string>, ghost done: seq<string>, id: string)
      requires Valid() && Progress(registered, pools, ids, done) && id in ids
      requires before.Keys == registered.Keys
      requires forall x | x in ids :: State(registered[x]) == before[x]
      requires forall x | x in registered && x !in ids :: DisposedFrom(before[x], registered[x])
      requires containers == WithoutEach(containers0, done)
      modifies this, pools[id]
      ensures Valid() && Progress(registered, pools, ids - {id}, done + [id])
      ensures forall x | x in ids - {id} :: State(registered[x]) == before[x]
      ensures forall x | x in registered && x !in ids - {id} :: DisposedFrom(before[x], registered[x])
      ensures containers == WithoutEach(containers0, done + [id])
      ensures poolRoot == old(poolRoot) && nextNode == old(nextNode)
    {
      ProgressStep(registered, pools, ids, done, id);
      WithoutEachAppend(containers0, done, id);
      DisposeOne(id);
      assert DisposedFrom(before[id], registered[id]);
    }
  }

  /**
   * Creating a pool under a fresh id and disposing it again restores the
   * registry and the root's children, provided no stale container with that
   * name was left behind by an earlier teardown that raised.
   */
  method CreateThenDispose(manager: PoolManager, poolId: string, objectType: TypeTag, prefab: Prefab, maxSize: int)
    requires manager.Valid() && poolId != [] && poolId !in manager.pools && 1 <= maxSize
    requires '/' !in poolId && FindContainer(manager.containers, poolId).None?
    modifies manager
    ensures manager.Valid()
    ensures manager.pools == old(manager.pools) && manager.containers == old(manager.containers)
  {
    manager.CreatePool(poolId, objectType, Some(prefab), maxSize, maxSize);
    var pool := manager.pools[poolId];
    ghost var created := Container(poolId, pool.poolRoot);
    assert manager.containers == old(manager.containers) + [created];
    assert manager.pools == old(manager.pools)[poolId := pool];
    WithoutAppendedContainer(old(manager.containers), created);
    manager.DisposePool(poolId, false);
    assert manager.containers == WithoutContainer(old(manager.containers) + [created], poolId);
    assert manager.pools == old(manager.pools)[poolId := pool] - {poolId};
    UpdateThenRemove(old(manager.pools), poolId, pool);
  }

  /** Registering a fresh key and removing it again gives back the map. */
  lemma UpdateThenRemove(m: map<string, GameObjectPool>, k: string, v: GameObjectPool)
    requires k !in m
    ensures m[k := v] - {k} == m
  {
  }
}
