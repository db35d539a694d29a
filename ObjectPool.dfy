/**
 * GameObjectPool<T>: a pool of component instances with a cap on how many
 * are active at once. Newly taken instances join a FIFO queue of active
 * instances; before one joins, the oldest are released while the queue is at
 * the cap.
 *
 * The inner UnityEngine.Pool.ObjectPool<T> is modelled by InnerGet,
 * InnerRelease and InnerDispose: its idle collection `free` is a stack (Get
 * pops the last element, or creates one when it is empty), Release runs the
 * on-return hook and pushes the element, Dispose runs the destroy hook on
 * every idle element and empties the collection.
 *
 * Scene effects (SetActive, SetParent, Destroy) are the ghost fields
 * `shown`, `parentOf` and `destroyed`.
 */
module ObjectPool {
  import opened Wrappers

  /** Identity of a component type (C#'s System.Type). */
  type TypeTag = nat
  /** A scene-graph node (a Transform). */
  type Transform = nat
  /** A prefab asset that instances are cloned from. */
  type Prefab = nat

  /** A component instance: its exact runtime type and what tells clones apart. */
  datatype Instance = Instance(kind: TypeTag, serial: nat)

  /** The exceptions the pool's constructor raises. */
  datatype ConstructionFault = PrefabMissing | RootMissing | MaxSizeNotPositive | CapacityNegative

  /**
   * Argument checks of the constructor, in the order it makes them: the
   * prefab, the pool root, and then the inner pool's own rejections of a
   * maximum size below one and of a negative initial capacity for its idle
   * collection.
   */
  function ConstructionCheck(prefab: Option<Prefab>, poolRoot: Option<Transform>, defaultCapacity: int, maxSize: int)
    : (r: Option<ConstructionFault>)
    ensures r.None? <==> prefab.Some? && poolRoot.Some? && 1 <= maxSize && 0 <= defaultCapacity
    ensures prefab.None? ==> r == Some(PrefabMissing)
    ensures prefab.Some? && poolRoot.None? ==> r == Some(RootMissing)
    ensures prefab.Some? && poolRoot.Some? && maxSize < 1 ==> r == Some(MaxSizeNotPositive)
    ensures r == Some(CapacityNegative) <==> prefab.Some? && poolRoot.Some? && 1 <= maxSize && defaultCapacity < 0
  {
    if prefab.None? then Some(PrefabMissing)
    else if poolRoot.None? then Some(RootMissing)
    else if maxSize < 1 then Some(MaxSizeNotPositive)
    else if defaultCapacity < 0 then Some(CapacityNegative)
    else None
  }

  /** The instances of s, as a set. */
  ghost function Members(s: seq<Instance>): set<Instance>
    decreases |s|
  {
    if s == [] then {} else Members(s[..|s| - 1]) + {s[|s| - 1]}
  }

  lemma {:induction false} MembersAreMembers(s: seq<Instance>, x: Instance)
    ensures x in Members(s) <==> x in s
    decreases |s|
  {
    if s != [] {
      MembersAreMembers(s[..|s| - 1], x);
      assert s == s[..|s| - 1] + [s[|s| - 1]];
    }
  }

  lemma {:induction false} MembersAppend(a: seq<Instance>, b: seq<Instance>)
    ensures Members(a + b) == Members(a) + Members(b)
    decreases |b|
  {
    if b == [] {
      assert a + b == a;
    } else {
      MembersAppend(a, b[..|b| - 1]);
      assert (a + b)[..|a + b| - 1] == a + b[..|b| - 1];
    }
  }

  /** The parent map after each instance of s, in order, is moved under root. */
  ghost function Reparent(parentOf: map<Instance, Transform>, s: seq<Instance>, root: Transform): map<Instance, Transform>
    decreases |s|
  {
    if s == [] then parentOf else Reparent(parentOf, s[..|s| - 1], root)[s[|s| - 1] := root]
  }

  /** The parent map after moving s under root: the instances of s under root, every other entry unchanged. */
  lemma {:induction false} ReparentMoves(parentOf: map<Instance, Transform>, s: seq<Instance>, root: Transform, x: Instance)
    ensures x in s ==> x in Reparent(parentOf, s, root) && Reparent(parentOf, s, root)[x] == root
    ensures x !in s ==> (x in Reparent(parentOf, s, root) <==> x in parentOf)
    ensures x !in s && x in parentOf ==> Reparent(parentOf, s, root)[x] == parentOf[x]
    decreases |s|
  {
    if s != [] {
      ReparentMoves(parentOf, s[..|s| - 1], root, x);
      assert s == s[..|s| - 1] + [s[|s| - 1]];
    }
  }

  /**
   * Serials strictly increase along s: clones are recorded in creation order,
   * so no instance occurs twice.
   */
  ghost predicate Increasing(s: seq<Instance>) {
    forall i, j | 0 <= i < j < |s| :: s[i].serial < s[j].serial
  }

  ghost predicate AllOfKind(s: seq<Instance>, kind: TypeTag) {
    forall x | x in s :: x.kind == kind
  }

  ghost predicate SerialsBelow(s: seq<Instance>, bound: nat) {
    forall x | x in s :: x.serial < bound
  }

  /** The idle collection after a pop: everything but the last element. */
  function Popped(free: seq<Instance>): seq<Instance> {
    if free == [] then [] else free[..|free| - 1]
  }

  /**
   * What MaintainActiveObjectsLimit does to the active queue: the first
   * component lists the instances it dequeues and releases, oldest first; the
   * second is the queue that is left.
   */
  function Evict(queue: seq<Instance>, maxActive: int): (r: (seq<Instance>, seq<Instance>))
    requires 1 <= maxActive
    ensures |r.1| < maxActive
    ensures |queue| < maxActive <==> r.0 == []
    ensures |queue| < maxActive ==> r.1 == queue
    decreases |queue|
  {
    if |queue| >= maxActive then
      var (released, kept) := Evict(queue[1..], maxActive);
      ([queue[0]] + released, kept)
    else
      ([], queue)
  }

  /**
   * Eviction is FIFO and takes no more than it must: the released instances
   * are a prefix of the queue, the survivors the rest in their order, and
   * exactly maxActive - 1 survive when the queue was at or over the cap
   * (nothing is released otherwise).
   */
  lemma {:induction false} EvictIsOldestFirst(queue: seq<Instance>, maxActive: int)
    requires 1 <= maxActive
    ensures Evict(queue, maxActive).0 + Evict(queue, maxActive).1 == queue
    ensures |Evict(queue, maxActive).1| == if |queue| >= maxActive then maxActive - 1 else |queue|
    decreases |queue|
  {
    if |queue| >= maxActive {
      EvictIsOldestFirst(queue[1..], maxActive);
      assert queue == [queue[0]] + queue[1..];
    }
  }

  /** The position of the first occurrence of x. */
  function FirstIndex(s: seq<Instance>, x: Instance): (k: nat)
    requires x in s
    ensures k < |s| && s[k] == x && x !in s[..k]
    decreases |s|
  {
    if s[0] == x then 0
    else
      var k := FirstIndex(s[1..], x);
      assert s[..k + 1] == [s[0]] + s[1..][..k];
      k + 1
  }

  /** List<T>.Remove: drops the first occurrence of x, if any. */
  function RemoveFirst(s: seq<Instance>, x: Instance): (r: seq<Instance>)
    ensures x !in s ==> r == s
    ensures x in s ==> r == s[..FirstIndex(s, x)] + s[FirstIndex(s, x) + 1..]
    decreases |s|
  {
    if s == [] then []
    else if s[0] == x then s[1..]
    else
      assert s == [s[0]] + s[1..];
      if x in s[1..] then
        SlicesAfterHead(s, FirstIndex(s[1..], x));
        [s[0]] + RemoveFirst(s[1..], x)
      else
        [s[0]] + RemoveFirst(s[1..], x)
  }

  lemma SlicesAfterHead(s: seq<Instance>, k: nat)
    requires k + 1 < |s|
    ensures s[..k + 1] == [s[0]] + s[1..][..k]
    ensures s[k + 2..] == s[1..][k + 1..]
  {
  }

  /** Dropping position k shifts the later elements down by one. */
  lemma DropAt(s: seq<Instance>, k: nat, i: nat)
    requires k < |s| && i < |s| - 1
    ensures (s[..k] + s[k + 1..])[i] == s[if i < k then i else i + 1]
  {
  }

  /**
   * Removing from a list in creation order removes the element altogether
   * and keeps the order; what is left was there before.
   */
  lemma RemoveFirstKeepsOrder(s: seq<Instance>, x: Instance, kind: TypeTag, bound: nat)
    requires Increasing(s)
    ensures Increasing(RemoveFirst(s, x)) && x !in RemoveFirst(s, x)
    ensures AllOfKind(s, kind) ==> AllOfKind(RemoveFirst(s, x), kind)
    ensures SerialsBelow(s, bound) ==> SerialsBelow(RemoveFirst(s, x), bound)
  {
    if x in s {
      var k := FirstIndex(s, x);
      var r := RemoveFirst(s, x);
      assert |r| == |s| - 1;
      forall i, j | 0 <= i < j < |r| ensures r[i].serial < r[j].serial {
        DropAt(s, k, i);
        DropAt(s, k, j);
      }
      forall i | 0 <= i < |r| ensures r[i] != x && r[i] in s {
        DropAt(s, k, i);
        var i' := if i < k then i else i + 1;
        assert r[i] == s[i'] && i' != k;
        assert i' < k ==> s[i'].serial < s[k].serial;
        assert k < i' ==> s[k].serial < s[i'].serial;
      }
    }
  }

  /** A clone with a serial above every recorded one keeps the list in creation order. */
  lemma AppendKeepsOrder(s: seq<Instance>, x: Instance)
    requires Increasing(s) && SerialsBelow(s, x.serial)
    ensures Increasing(s + [x])
  {
    forall i, j | 0 <= i < j < |s + [x]| ensures (s + [x])[i].serial < (s + [x])[j].serial {
      assert (s + [x])[i] == s[i];
      if j == |s| {
        assert s[i] in s;
      }
    }
  }

  class GameObjectPool {
    const objectType: TypeTag
    const prefab: Prefab
    const poolRoot: Transform
    const defaultCapacity: int
    const maxActiveObjects: int

    /** The inner pool's idle instances; the last one is taken first. */
    var free: seq<Instance>
    /** The active queue, oldest first. It may hold instances the caller has already released. */
    var activeObjects: seq<Instance>
    var allCreatedObjects: seq<Instance>
    /** Serial of the next clone Instantiate makes. */
    var nextSerial: nat

    /** Instances whose game object is active. */
    ghost var shown: set<Instance>
    /** The parent each instance was last attached to. */
    ghost var parentOf: map<Instance, Transform>
    /** Instances whose game object has been destroyed. */
    ghost var destroyed: set<Instance>

    ghost predicate Valid()
      reads this
    {
      && 1 <= maxActiveObjects
      && |activeObjects| <= maxActiveObjects
      && AllOfKind(free, objectType) && AllOfKind(activeObjects, objectType)
      && AllOfKind(allCreatedObjects, objectType)
      && SerialsBelow(allCreatedObjects, nextSerial)
      && Increasing(allCreatedObjects)
    }

    /** The constructor once its argument checks have passed (see ConstructionCheck and NewPool). */
    constructor (objectType: TypeTag, prefab: Prefab, poolRoot: Transform, defaultCapacity: int, maxSize: int)
      requires ConstructionCheck(Some(prefab), Some(poolRoot), defaultCapacity, maxSize).None?
      ensures Valid()
      ensures this.objectType == objectType && this.prefab == prefab && this.poolRoot == poolRoot
      ensures this.defaultCapacity == defaultCapacity && maxActiveObjects == maxSize
      ensures free == [] && activeObjects == [] && allCreatedObjects == []
      ensures shown == {} && parentOf == map[] && destroyed == {}
    {
      this.objectType := objectType;
      this.prefab := prefab;
      this.poolRoot := poolRoot;
      this.defaultCapacity := defaultCapacity;
      maxActiveObjects := maxSize;
      free, activeObjects, allCreatedObjects := [], [], [];
      nextSerial := 0;
      shown, parentOf, destroyed := {}, map[], {};
    }

    /** Clones the prefab under the pool root, hides the clone and records it. */
    method CreatePooledItem() returns (instance: Instance)
      requires Valid()
      modifies this
      ensures Valid()
      ensures instance == Instance(objectType, old(nextSerial)) && instance !in old(allCreatedObjects)
      ensures allCreatedObjects == old(allCreatedObjects) + [instance] && nextSerial == old(nextSerial) + 1
      ensures free == old(free) && activeObjects == old(activeObjects)
      ensures shown == old(shown) - {instance} && parentOf == old(parentOf)[instance := poolRoot]
      ensures destroyed == old(destroyed)
    {
      instance := Instance(objectType, nextSerial);
      AppendKeepsOrder(allCreatedObjects, instance);
      nextSerial := nextSerial + 1;
      parentOf := parentOf[instance := poolRoot];
      shown := shown - {instance};
      allCreatedObjects := allCreatedObjects + [instance];
    }

    /** Hides a returned instance and moves it back under the pool root. */
    method OnReturnedToPool(obj: Instance)
      modifies this
      ensures shown == old(shown) - {obj} && parentOf == old(parentOf)[obj := poolRoot]
      ensures free == old(free) && activeObjects == old(activeObjects) && allCreatedObjects == old(allCreatedObjects)
      ensures nextSerial == old(nextSerial) && destroyed == old(destroyed)
    {
      shown := shown - {obj};
      parentOf := parentOf[obj := poolRoot];
    }

    /** Forgets a created instance and destroys its game object unless already destroyed. */
    method OnDestroyPoolObject(obj: Instance)
      requires Valid()
      modifies this
      ensures Valid()
      ensures allCreatedObjects == RemoveFirst(old(allCreatedObjects), obj) && obj !in allCreatedObjects
      ensures destroyed == old(destroyed) + {obj}
      ensures free == old(free) && activeObjects == old(activeObjects) && nextSerial == old(nextSerial)
      ensures shown == old(shown) && parentOf == old(parentOf)
    {
      RemoveFirstKeepsOrder(allCreatedObjects, obj, objectType, nextSerial);
      allCreatedObjects := RemoveFirst(allCreatedObjects, obj);
      if obj !in destroyed {
        destroyed := destroyed + {obj};
      }
    }

    /** The inner pool's Release: the on-return hook, then the element goes back to the idle stack. */
    method InnerRelease(obj: Instance)
      requires Valid() && obj.kind == objectType
      modifies this
      ensures Valid()
      ensures free == old(free) + [obj]
      ensures activeObjects == old(activeObjects) && allCreatedObjects == old(allCreatedObjects)
      ensures nextSerial == old(nextSerial) && destroyed == old(destroyed)
      ensures shown == old(shown) - {obj} && parentOf == old(parentOf)[obj := poolRoot]
    {
      OnReturnedToPool(obj);
      free := free + [obj];
    }

    /** One round of the eviction loop: dequeue the oldest active instance and release it. */
    method DequeueAndRelease() returns (oldest: Instance)
      requires Valid() && activeObjects != []
      modifies this
      ensures Valid()
      ensures oldest == old(activeObjects[0]) && activeObjects == old(activeObjects[1..])
      ensures free == old(free) + [oldest]
      ensures shown == old(shown) - {oldest} && parentOf == old(parentOf)[oldest := poolRoot]
      ensures allCreatedObjects == old(allCreatedObjects) && nextSerial == old(nextSerial)
      ensures destroyed == old(destroyed)
    {
      oldest := activeObjects[0];
      activeObjects := activeObjects[1..];
      InnerRelease(oldest);
    }

    /** Releases the oldest active instances while the queue is at the cap. */
    method MaintainActiveObjectsLimit()
      requires Valid()
      modifies this
      ensures Valid() && |activeObjects| < maxActiveObjects
      ensures var (released, kept) := Evict(old(activeObjects), maxActiveObjects);
        && activeObjects == kept
        && free == old(free) + released
        && shown == old(shown) - Members(released)
        && parentOf == Reparent(old(parentOf), released, poolRoot)
      ensures allCreatedObjects == old(allCreatedObjects) && nextSerial == old(nextSerial)
      ensures destroyed == old(destroyed)
    {
      ghost var released: seq<Instance> := [];
      while |activeObjects| >= maxActiveObjects
        invariant Valid()
        invariant Evict(old(activeObjects), maxActiveObjects).0 == released + Evict(activeObjects, maxActiveObjects).0
        invariant Evict(old(activeObjects), maxActiveObjects).1 == Evict(activeObjects, maxActiveObjects).1
        invariant free == old(free) + released
        invariant shown == old(shown) - Members(released)
        invariant parentOf == Reparent(old(parentOf), released, poolRoot)
        invariant allCreatedObjects == old(allCreatedObjects) && nextSerial == old(nextSerial)
        invariant destroyed == old(destroyed)
        decreases |activeObjects|
      {
        ghost var queue := activeObjects;
        ghost var rest := Evict(activeObjects[1..], maxActiveObjects);
        var oldest := DequeueAndRelease();
        assert Evict(queue, maxActiveObjects) == ([oldest] + rest.0, rest.1);
        assert released + ([oldest] + rest.0) == (released + [oldest]) + rest.0;
        assert free == old(free) + (released + [oldest]);
        assert (released + [oldest])[..|released|] == released;
        released := released + [oldest];
      }
    }

    /** Shows a taken instance, makes room for it and appends it to the active queue. */
    method OnTakeFromPool(obj: Instance)
      requires Valid() && obj.kind == objectType
      modifies this
      ensures Valid()
      ensures var (released, kept) := Evict(old(activeObjects), maxActiveObjects);
        && activeObjects == kept + [obj]
        && free == old(free) + released
        && shown == (old(shown) + {obj}) - Members(released)
        && parentOf == Reparent(old(parentOf), released, poolRoot)
      ensures allCreatedObjects == old(allCreatedObjects) && nextSerial == old(nextSerial)
      ensures destroyed == old(destroyed)
    {
      shown := shown + {obj};
      MaintainActiveObjectsLimit();
      activeObjects := activeObjects + [obj];
    }

    /** The inner pool's Get: pop the last idle instance or create one, then the on-take hook. */
    method InnerGet() returns (item: Instance)
      requires Valid()
      modifies this
      ensures Valid()
      ensures old(free) == [] ==>
        && item == Instance(objectType, old(nextSerial)) && item !in old(allCreatedObjects)
        && allCreatedObjects == old(allCreatedObjects) + [item] && nextSerial == old(nextSerial) + 1
      ensures old(free) != [] ==>
        && item == old(free)[|old(free)| - 1]
        && allCreatedObjects == old(allCreatedObjects) && nextSerial == old(nextSerial)
      ensures var (released, kept) := Evict(old(activeObjects), maxActiveObjects);
        && activeObjects == kept + [item]
        && free == Popped(old(free)) + released
        && shown == (old(shown) + {item}) - Members(released)
        && parentOf == Reparent(if old(free) == [] then old(parentOf)[item := poolRoot] else old(parentOf),
                                released, poolRoot)
      ensures destroyed == old(destroyed)
    {
      if free == [] {
        item := CreatePooledItem();
      } else {
        item := free[|free| - 1];
        free := free[..|free| - 1];
      }
      OnTakeFromPool(item);
    }

    /**
     * Takes an instance and attaches it to `parent`. The active queue never
     * exceeds the cap (Valid), the oldest entries are the ones released, and
     * the taken instance is the newest entry. If the taken instance still had
     * a stale entry in the queue that eviction reaches, it is hidden and pushed
     * back onto the idle stack although it is also returned.
     */
    method Get(parent: Transform) returns (item: Instance)
      requires Valid()
      modifies this
      ensures Valid()
      ensures old(free) == [] ==>
        && item == Instance(objectType, old(nextSerial)) && item !in old(allCreatedObjects)
        && allCreatedObjects == old(allCreatedObjects) + [item] && nextSerial == old(nextSerial) + 1
      ensures old(free) != [] ==>
        && item == old(free)[|old(free)| - 1]
        && allCreatedObjects == old(allCreatedObjects) && nextSerial == old(nextSerial)
      ensures var (released, kept) := Evict(old(activeObjects), maxActiveObjects);
        && activeObjects == kept + [item]
        && free == Popped(old(free)) + released
        && shown == (old(shown) + {item}) - Members(released)
        && parentOf == Reparent(old(parentOf), released, poolRoot)[item := parent]
      ensures destroyed == old(destroyed)
    {
      item := InnerGet();
      parentOf := parentOf[item := parent];
    }

    /** Forwards to the inner pool; the active queue keeps its (now stale) entry. */
    method Release(obj: Instance)
      requires Valid() && obj.kind == objectType
      modifies this
      ensures Valid()
      ensures free == old(free) + [obj] && activeObjects == old(activeObjects)
      ensures allCreatedObjects == old(allCreatedObjects) && nextSerial == old(nextSerial)
      ensures shown == old(shown) - {obj} && parentOf == old(parentOf)[obj := poolRoot]
      ensures destroyed == old(destroyed)
    {
      InnerRelease(obj);
    }

    /**
     * The inner pool's Dispose: the destroy hook on every idle instance, then
     * an empty idle stack. Its one caller has already emptied
     * allCreatedObjects, so the hook's List.Remove finds nothing there.
     */
    method InnerDispose()
      requires Valid() && allCreatedObjects == []
      modifies this
      ensures Valid()
      ensures free == [] && destroyed == old(destroyed) + Members(old(free))
      ensures activeObjects == old(activeObjects) && allCreatedObjects == []
      ensures nextSerial == old(nextSerial) && shown == old(shown) && parentOf == old(parentOf)
    {
      destroyed := destroyed + Members(free);
      free := [];
    }

    /** The first loop of Dispose: dequeue and release until the active queue is empty. */
    method DrainActiveObjects()
      requires Valid()
      modifies this
      ensures Valid()
      ensures activeObjects == [] && free == old(free) + old(activeObjects)
      ensures shown == old(shown) - Members(old(activeObjects))
      ensures parentOf == Reparent(old(parentOf), old(activeObjects), poolRoot)
      ensures allCreatedObjects == old(allCreatedObjects) && nextSerial == old(nextSerial)
      ensures destroyed == old(destroyed)
    {
      ghost var drained: seq<Instance> := [];
      while |activeObjects| > 0
        invariant Valid()
        invariant old(activeObjects) == drained + activeObjects
        invariant free == old(free) + drained
        invariant shown == old(shown) - Members(drained)
        invariant parentOf == Reparent(old(parentOf), drained, poolRoot)
        invariant allCreatedObjects == old(allCreatedObjects) && nextSerial == old(nextSerial)
        invariant destroyed == old(destroyed)
        decreases |activeObjects|
      {
        var obj := activeObjects[0];
        assert (drained + [obj]) + activeObjects[1..] == drained + activeObjects;
        activeObjects := activeObjects[1..];
        InnerRelease(obj);
        assert (drained + [obj])[..|drained|] == drained;
        assert free == old(free) + (drained + [obj]);
        drained := drained + [obj];
      }
      assert drained + [] == drained;
    }

    /** The second loop of Dispose: the destroy hook on a snapshot of every created instance. */
    method DestroyAllCreated()
      requires Valid()
      modifies this
      ensures Valid()
      ensures allCreatedObjects == [] && destroyed == old(destroyed) + Members(old(allCreatedObjects))
      ensures free == old(free) && activeObjects == old(activeObjects) && nextSerial == old(nextSerial)
      ensures shown == old(shown) && parentOf == old(parentOf)
    {
      var snapshot := allCreatedObjects;
      var i := 0;
      while i < |snapshot|
        invariant 0 <= i <= |snapshot|
        invariant Valid()
        invariant allCreatedObjects == snapshot[i..]
        invariant destroyed == old(destroyed) + Members(snapshot[..i])
        invariant free == old(free) && activeObjects == old(activeObjects) && nextSerial == old(nextSerial)
        invariant shown == old(shown) && parentOf == old(parentOf)
      {
        assert snapshot[..i + 1][..i] == snapshot[..i];
        assert snapshot[i..] == [snapshot[i]] + snapshot[i + 1..];
        OnDestroyPoolObject(snapshot[i]);
        i := i + 1;
      }
      assert snapshot[..i] == snapshot;
    }

    /**
     * Releases every queued instance (stale entries included), destroys every
     * created instance, and empties the pool.
     */
    method Dispose()
      requires Valid()
      modifies this
      ensures Valid()
      ensures activeObjects == [] && allCreatedObjects == [] && free == []
      ensures destroyed == old(destroyed) + Members(old(allCreatedObjects)) + Members(old(free))
                           + Members(old(activeObjects))
      ensures shown == old(shown) - Members(old(activeObjects))
      ensures parentOf == Reparent(old(parentOf), old(activeObjects), poolRoot)
      ensures nextSerial == old(nextSerial)
    {
      DrainActiveObjects();
      DestroyAllCreated();
      allCreatedObjects := [];
      InnerDispose();
      MembersAppend(old(free), old(activeObjects));
    }
  }

  /**
   * `new GameObjectPool<T>(prefab, poolRoot, defaultCapacity, maxSize)`:
   * fails with the constructor's exception, or yields an empty pool whose
   * cap is maxSize.
   */
  method NewPool(objectType: TypeTag, prefab: Option<Prefab>, poolRoot: Option<Transform>, defaultCapacity: int, maxSize: int)
    returns (r: Result<GameObjectPool, ConstructionFault>)
    ensures r.Failure? <==> ConstructionCheck(prefab, poolRoot, defaultCapacity, maxSize).Some?
    ensures r.Failure? ==> Some(r.error) == ConstructionCheck(prefab, poolRoot, defaultCapacity, maxSize)
    ensures r.Success? ==>
      && fresh(r.value) && r.value.Valid()
      && r.value.objectType == objectType && r.value.prefab == prefab.value && r.value.poolRoot == poolRoot.value
      && r.value.defaultCapacity == defaultCapacity && r.value.maxActiveObjects == maxSize
      && r.value.free == [] && r.value.activeObjects == [] && r.value.allCreatedObjects == []
      && r.value.destroyed == {}
  {
    var fault := ConstructionCheck(prefab, poolRoot, defaultCapacity, maxSize);
    if fault.Some? {
      return Failure(fault.value);
    }
    var pool := new GameObjectPool(objectType, prefab.value, poolRoot.value, defaultCapacity, maxSize);
    return Success(pool);
  }

  /** A take on a full queue of cap 2 releases the oldest entry and appends the new instance. */
  method EvictionScenario(pool: GameObjectPool)
    requires pool.Valid() && pool.maxActiveObjects == 2 && |pool.activeObjects| == 2 && pool.free == []
    modifies pool
  {
    var a, b := pool.activeObjects[0], pool.activeObjects[1];
    assert pool.activeObjects == [a, b];
    var c := pool.Get(5);
    assert [a, b][1..] == [b];
    assert Evict([b], 2) == ([], [b]);
    assert Evict([a, b], 2) == ([a] + Evict([b], 2).0, Evict([b], 2).1);
    assert [a] + [] == [a];
    assert pool.activeObjects == [b, c] && pool.free == [a];
  }

  /**
   * Cap 1: a released instance keeps its queue entry; taking again pops the
   * same instance, eviction reaches the stale entry, and the instance comes
   * back hidden while it also sits on the idle stack.
   */
  method StaleEntryScenario() {
    var pool := new GameObjectPool(7, 1, 2, 2, 1);
    var a := pool.Get(5);
    pool.Release(a);
    assert pool.activeObjects == [a] && pool.free == [a];
    EvictIsOldestFirst([a], 1);
    var b := pool.Get(5);
    assert b == a;
    assert pool.activeObjects == [a] && pool.free == [a];
    assert b !in pool.shown;
  }
}
