# ShrinkFramework core, modelled in Dafny

This project models five runtime services of the ShrinkFramework Unity toolkit
and proves properties of them:

- **GameObjectPool** (`ObjectPool.dfy`). A pool of component instances with a
  cap on how many are active at once. Taken instances join a FIFO queue of
  active instances. Before a new one joins, the oldest are released while the
  queue is at the cap. The wrapped `UnityEngine.Pool.ObjectPool<T>` is modelled
  as an idle stack:
  - Get pops the last element, or creates one when the stack is empty.
  - Release runs the return hook and pushes.
  - Dispose destroys every idle element.

  Scene effects are ghost state: `shown` (SetActive), `parentOf` (SetParent)
  and `destroyed` (Destroy). Instances are values `Instance(kind, serial)`.
  `serial` is a per-pool counter that stands for the identity of each clone.
- **PoolManager** (`PoolRegistry.dfy`). The registry from pool id to pool. The
  static class becomes one `PoolManager` object. It creates the root node
  lazily. It keeps the `<poolId>_Container` children in sibling order, so that
  `Transform.Find` yields the first container with a given name. A name
  holding '/' is a path for `Transform.Find`, so it finds no container. Type
  checks compare the pool's type tag with the requested one.
- **KeySettingManager** (`KeySettings.dfy`). The table from action names to
  `KeyMapping` objects. Mappings are heap objects, as in the source. The table
  stores the very objects of the default array, so a key change on a default
  action also changes the default array, and a later reset keeps that key.
- **LocalizationManager** (`Localization.dfy`). It parses `key=value` resource
  text into a table and looks keys up. The string operations are modelled by
  their ordinal meaning: String.Split, Trim, IndexOf and Replace.
- **EventManager** (`Events.dfy`). The table from event name to multicast
  delegate. A delegate is modelled as its invocation list, with `None` for
  C#'s null delegate.
  - Register appends (Delegate.Combine).
  - Unregister removes the last occurrence (Delegate.Remove).
  - Both fail with `TypeMismatch`, leaving the table as it was, when the name
    holds a non-null delegate of another argument type: Delegate.Combine and
    Delegate.Remove throw ArgumentException there.
  - Cancel keeps the name with a null delegate.
  - Trigger invokes the handlers in order and collects the results of those
    whose argument type matches and that do not throw.

`Wrappers.dfy` holds `Option` and `Result`.

Scenario methods show concrete behaviours of the code as written:

- `ObjectPool.EvictionScenario`: a take on a full queue releases its oldest
  entry.
- `ObjectPool.StaleEntryScenario`: a released instance keeps its entry in the
  active queue. Taking it again evicts that stale entry, so the instance comes
  back hidden and also sits on the idle stack.
- `KeySettings.ResetKeepsRebindScenario`: after rebinding "Left", a reset keeps
  the new key.
- `Events.CancelScenario`: triggering a cancelled event fails on the null
  delegate. Registering on it again starts a fresh list.
- `Events.TypeClashScenario`: a handler of another argument type can be
  neither registered on nor unregistered from a name's list.

### Behaviour of the code worth knowing

- **Release leaves a stale queue entry.** Releasing does not remove the
  instance from the active queue. Eviction later reaches that entry and
  releases the instance again, even when it has been taken anew
  (`StaleEntryScenario`). When the instance is still idle at that point,
  Unity's pool, built with `collectionCheck` on, throws
  InvalidOperationException instead. The plain sequence get, release, Dispose
  reaches this in Dispose's draining loop. The model pushes the instance
  again; see the first entry under "Left out".
- **Creation is not capped.** `maxSize` caps the active queue and, inside
  Unity's pool, the idle stack. It does not cap how many instances are
  created: a take with an empty idle stack always creates a new one.
- **Eviction checks before admitting.** It runs while the queue holds at least
  `maxSize` entries, before the new instance is enqueued. So the queue never
  exceeds the cap (`Valid()`).
- **Registry failures are logged, not raised.** An empty or taken id in
  CreatePool, and an unknown id or a type mismatch in Get and Release, only
  log: the call returns, changes nothing, and `Get` yields null (`None`).
  A failed construction in CreatePool is logged too, but it is not free of
  effects: the container was already created, and the root as well on first
  use. The container is destroyed again and nothing is registered, but the
  root stays and the node counter has moved on. DisposePool is the exception
  to logging: its `finally` unregisters the pool and then lets a teardown
  exception propagate.
- **Ids with '/' leave their container behind.** DisposePool looks the
  container up with `Transform.Find`, which reads '/' as a path separator, so
  it finds and destroys nothing for such an id.

## Model

| member | source | states |
|---|---|---|
| ObjectPool.ConstructionCheck | Assets/Scripts/ObjectPool/GameObjectPool.cs:25-43 | The constructor fails exactly when the prefab or the root is missing, maxSize < 1, or defaultCapacity < 0. It checks the prefab, the root, maxSize and then the capacity, and reports the first that fails. |
| ObjectPool.NewPool | Assets/Scripts/ObjectPool/GameObjectPool.cs:25-43 | Fails with the constructor's fault exactly when the checks fail, a negative defaultCapacity included. Otherwise it yields a fresh, valid, empty pool holding the given type, prefab, root, capacity and cap maxSize. |
| ObjectPool.GameObjectPool.constructor | Assets/Scripts/ObjectPool/GameObjectPool.cs:25-43 | An empty pool with the given type, prefab, root and cap, satisfying the invariant. |
| ObjectPool.Evict | Assets/Scripts/ObjectPool/GameObjectPool.cs:75-82 | Fewer than maxActive entries survive eviction. Something is released exactly when the queue is at or over the cap; below it the queue is kept whole. |
| ObjectPool.EvictIsOldestFirst | Assets/Scripts/ObjectPool/GameObjectPool.cs:75-82 | Eviction is FIFO. The released instances followed by the survivors are the old queue. Exactly maxActive-1 survive when the queue was at the cap; otherwise nothing is released. |
| ObjectPool.RemoveFirst | Assets/Scripts/ObjectPool/GameObjectPool.cs:68 | List.Remove drops the first occurrence, the slice at FirstIndex, and leaves a list without x unchanged. |
| ObjectPool.RemoveFirstKeepsOrder | Assets/Scripts/ObjectPool/GameObjectPool.cs:66-73 | Removing from the creation-ordered list removes x altogether and keeps the order, the type and the serial bound. |
| ObjectPool.AppendKeepsOrder | Assets/Scripts/ObjectPool/GameObjectPool.cs:45-51 | Appending a clone newer than all recorded ones keeps the list in creation order. |
| ObjectPool.GameObjectPool.CreatePooledItem | Assets/Scripts/ObjectPool/GameObjectPool.cs:45-51 | A new clone, parented to the pool root, hidden, and appended to allCreatedObjects. The clone was not recorded before. |
| ObjectPool.GameObjectPool.OnTakeFromPool | Assets/Scripts/ObjectPool/GameObjectPool.cs:53-58 | Shows obj, releases Evict's prefix onto the idle stack, and leaves the survivors followed by obj in the queue. |
| ObjectPool.GameObjectPool.OnReturnedToPool | Assets/Scripts/ObjectPool/GameObjectPool.cs:60-64 | Hides obj and reparents it to the pool root; nothing else changes. |
| ObjectPool.GameObjectPool.OnDestroyPoolObject | Assets/Scripts/ObjectPool/GameObjectPool.cs:66-73 | allCreatedObjects loses the first occurrence of obj, and obj is marked destroyed. |
| ObjectPool.GameObjectPool.InnerRelease | Assets/Scripts/ObjectPool/GameObjectPool.cs:92 | The inner pool's Release runs the return hook and pushes obj onto the idle stack. |
| ObjectPool.GameObjectPool.DequeueAndRelease | Assets/Scripts/ObjectPool/GameObjectPool.cs:79-80 | Dequeues the oldest active entry and releases it into the idle stack. |
| ObjectPool.GameObjectPool.MaintainActiveObjectsLimit | Assets/Scripts/ObjectPool/GameObjectPool.cs:75-82 | Afterwards the queue is below the cap. Its new state is Evict's survivors. Evict's released prefix is pushed in order, hidden and reparented to the root. |
| ObjectPool.GameObjectPool.InnerGet | Assets/Scripts/ObjectPool/GameObjectPool.cs:86 | Pops the last idle instance, or creates one when the stack is empty. Then it runs the take hook, with its eviction. |
| ObjectPool.GameObjectPool.Get | Assets/Scripts/ObjectPool/GameObjectPool.cs:84-90 | The taken instance is the newest queue entry and is parented to `parent`. The oldest entries are evicted. The cap invariant holds. |
| ObjectPool.GameObjectPool.Release | Assets/Scripts/ObjectPool/GameObjectPool.cs:92 | obj goes onto the idle stack, hidden and under the root. The active queue keeps its entry. |
| ObjectPool.GameObjectPool.InnerDispose | Assets/Scripts/ObjectPool/GameObjectPool.cs:110 | Every idle instance is destroyed and the idle stack is emptied. |
| ObjectPool.GameObjectPool.DrainActiveObjects | Assets/Scripts/ObjectPool/GameObjectPool.cs:97-101 | Every queued entry, stale ones included, is released in queue order. The queue ends empty. |
| ObjectPool.GameObjectPool.DestroyAllCreated | Assets/Scripts/ObjectPool/GameObjectPool.cs:104-107 | Every created instance is destroyed, and allCreatedObjects ends empty. |
| ObjectPool.GameObjectPool.Dispose | Assets/Scripts/ObjectPool/GameObjectPool.cs:94-111 | The pool ends empty. Every created, idle or queued instance is destroyed. Queued ones are hidden and reparented to the root first. |
| PoolRegistry.FindContainer | Assets/Scripts/ObjectPool/PoolManager.cs:101 | Transform.Find finds nothing for an id holding '/'. Otherwise it yields the first container named after the pool, or none exactly when no child has that name. |
| PoolRegistry.WithoutAppendedContainer | Assets/Scripts/ObjectPool/PoolManager.cs:101-105 | For an id without '/' and no older child of that name, destroying the id's container removes the one just appended and leaves the earlier children as they were. |
| PoolRegistry.PoolManager.constructor | Assets/Scripts/ObjectPool/PoolManager.cs:16-17 | No pools, no root, no containers. |
| PoolRegistry.PoolManager.PoolRoot | Assets/Scripts/ObjectPool/PoolManager.cs:19-28 | Returns the existing root, or creates one on first access. |
| PoolRegistry.PoolManager.CreatePool | Assets/Scripts/ObjectPool/PoolManager.cs:30-58 | An empty or taken id changes nothing. Otherwise a container is added under the root. If construction fails (no prefab, maxSize < 1 or a negative defaultCapacity), the container is removed again and nothing is registered. On success a fresh empty pool with cap maxSize is registered under the id. |
| PoolRegistry.PoolManager.Get | Assets/Scripts/ObjectPool/PoolManager.cs:60-72 | Yields an instance exactly when the id is known and the type matches, and then carries the pool's Get in full: the last idle instance or a new clone, the oldest entries evicted onto the idle stack, the created list, serial counter, shown set and parents. The parent is `parent`, or the root, created if needed. Otherwise no pool changes. |
| PoolRegistry.PoolManager.Release | Assets/Scripts/ObjectPool/PoolManager.cs:74-88 | With a known id and the exact type, obj is hidden, reparented to the pool root and pushed onto the idle stack. The queue, the created list, the serial counter, the destroyed set and other instances are unchanged. Otherwise no pool changes. |
| PoolRegistry.PoolManager.DisposePool | Assets/Scripts/ObjectPool/PoolManager.cs:90-111 | The id is unregistered in every case, and the root and node counter are unchanged. Without a fault in teardown, the pool ends drained, every instance it created, held idle or had queued is destroyed, the queued ones are hidden and reparented to the pool root, and the container Transform.Find finds is destroyed. If teardown raises, the container stays. |
| PoolRegistry.PoolManager.DisposeOne | Assets/Scripts/ObjectPool/PoolManager.cs:115-118 | One iteration: the id is unregistered, its pool is disposed as in GameObjectPool.Dispose (drained; created, idle and queued instances destroyed; queued ones hidden and reparented), its container is destroyed, and the root and node counter are unchanged. |
| PoolRegistry.PoolManager.DisposeNext | Assets/Scripts/ObjectPool/PoolManager.cs:115-118 | One iteration over the snapshot: the next id moves from the ids to visit to the done list, its pool ends disposed from its state at the start, the other pools still to visit are untouched, and one more container is destroyed. |
| PoolRegistry.PoolManager.DisposeAllPools | Assets/Scripts/ObjectPool/PoolManager.cs:113-119 | The registry ends empty. Every pool that was registered ends disposed as in GameObjectPool.Dispose, destroyed sets included. The containers are destroyed one per id, in an order that lists each registered id once. The root and node counter are unchanged. |
| PoolRegistry.ProgressStep | Assets/Scripts/ObjectPool/PoolManager.cs:113-119 | Disposing one more id of the snapshot keeps the remaining pools untouched and lists the id once in the done order. |
| PoolRegistry.CreateThenDispose | Assets/Scripts/ObjectPool/PoolManager.cs:30-111 | Creating a pool under a fresh id and disposing it restores the registry and the root's children. This needs an id without '/' and no stale container with that name. |
| KeySettings.WithDefaultsKeys | Assets/Scripts/Input/KeyboardInput/KeySettingManager.cs:191-197 | The fill-in loop binds exactly the old names plus the default names. Names already bound keep their object. |
| KeySettings.WithDefaultsNamed | Assets/Scripts/Input/KeyboardInput/KeySettingManager.cs:191-197 | The fill-in keeps every mapping stored under its own action name. |
| KeySettings.WithDefaultsStores | Assets/Scripts/Input/KeyboardInput/KeySettingManager.cs:191-197 | A name that was unbound, carried by one default only, ends bound to that very default object. |
| KeySettings.KeyMapping.constructor | Assets/Scripts/Input/KeyboardInput/KeySettingManager.cs:268-272 | A mapping with the given action name and key. |
| KeySettings.KeySettingManager.constructor | Assets/Scripts/Input/KeyboardInput/KeySettingManager.cs:44-60 | Awake with no settings file gives the five defaults, stored as the default objects themselves. The bindings are Attack=J, Left=A, Right=D, Up=W, Down=S. |
| KeySettings.KeySettingManager.AddKeyMapping | Assets/Scripts/Input/KeyboardInput/KeySettingManager.cs:72-86 | An empty name changes nothing. A bound name is rebound only with overwrite. A new name gets a fresh mapping with the key. |
| KeySettings.KeySettingManager.RemoveKeyMapping | Assets/Scripts/Input/KeyboardInput/KeySettingManager.cs:88-97 | Returns true exactly when the name was bound. The binding is gone afterwards. |
| KeySettings.KeySettingManager.GetKey | Assets/Scripts/Input/KeyboardInput/KeySettingManager.cs:99-104 | The action's key, or None exactly when it is unbound. |
| KeySettings.KeySettingManager.SetKey | Assets/Scripts/Input/KeyboardInput/KeySettingManager.cs:106-116 | Succeeds exactly when the action is bound and no action, itself included, holds the key. Only then is it rebound. A successful rebind keeps keys unshared. |
| KeySettings.KeySettingManager.ResetToDefaults | Assets/Scripts/Input/KeyboardInput/KeySettingManager.cs:118-124 | Exactly the five default names are bound, to the default objects. Each key is whatever that object now holds. |
| KeySettings.KeySettingManager.UpdateKeyInternal | Assets/Scripts/Input/KeyboardInput/KeySettingManager.cs:133-140 | Writes the key into the stored object and returns true. Only that binding changes. |
| KeySettings.KeySettingManager.IsKeyOccupied | Assets/Scripts/Input/KeyboardInput/KeySettingManager.cs:142-154 | True exactly when some action has the key; it then names such an action. |
| KeySettings.KeySettingManager.EnsureDefaultMappings | Assets/Scripts/Input/KeyboardInput/KeySettingManager.cs:191-197 | TryAdd of each default object in order. Old entries are kept. Every unbound default name gets its default object. |
| KeySettings.KeySettingManager.DefaultsCoverDefaultActions | Assets/Scripts/Input/KeyboardInput/KeySettingManager.cs:44-51 | Filling in the five defaults binds exactly the old names plus the default names. Names stay consistent, and the i-th default object fills its name. |
| KeySettings.KeySettingManager.KeyState | Assets/Scripts/Input/KeyboardInput/KeySettingManager.cs:254-258 | An action is held exactly when it is bound and its bound key (GetKey) is pressed; an unbound action never is. |
| KeySettings.KeySettingManager.GetAxis | Assets/Scripts/Input/KeyboardInput/KeySettingManager.cs:246-252 | +1 exactly when only the positive key is held; -1 exactly when only the negative one is; 0 when both or neither are. |
| Localization.TrimStart | Assets/Scripts/Localization/LocalizationManager.cs:135-136 | The longest suffix not starting with white space. Everything dropped is white space. |
| Localization.TrimEnd | Assets/Scripts/Localization/LocalizationManager.cs:135-136 | The longest prefix not ending with white space. Everything dropped is white space. |
| Localization.Trim | Assets/Scripts/Localization/LocalizationManager.cs:135-136 | The result is no longer than the text, empty exactly when the text is all white space, and otherwise starts and ends with a non-white-space character. |
| Localization.TrimIdempotent | Assets/Scripts/Localization/LocalizationManager.cs:135-136 | Trimming twice is trimming once. A trimmed text neither starts nor ends with white space. |
| Localization.IndexOf | Assets/Scripts/Localization/LocalizationManager.cs:131 | None exactly when c is absent; otherwise the first position of c. |
| Localization.ReplaceDigraphShrinks | Assets/Scripts/Localization/LocalizationManager.cs:144 | Replacing a two-character sequence by one character never lengthens the text, and a text without the sequence's first character is unchanged. |
| Localization.UnescapeNewlines | Assets/Scripts/Localization/LocalizationManager.cs:228-231 | The result is no longer than the text, and a text without a backslash is unchanged. |
| Localization.ProcessPlaceholders | Assets/Scripts/Localization/LocalizationManager.cs:142-145 | The result is no longer than the raw value, and a value without braces is unchanged. |
| Localization.UnescapeEscapeNewlines | Assets/Scripts/Localization/LocalizationManager.cs:228-231 | UnescapeNewlines undoes escaping every newline, for texts that do not themselves contain a backslash followed by `n`. |
| Localization.CollapseOpeningBraces | Assets/Scripts/Localization/LocalizationManager.cs:144 | Replacing `{{` in a doubled text leaves only the closing braces doubled. |
| Localization.CollapseClosingBraces | Assets/Scripts/Localization/LocalizationManager.cs:144 | Replacing `}}` undoes the doubling of closing braces. |
| Localization.ProcessPlaceholdersUndoesDoubling | Assets/Scripts/Localization/LocalizationManager.cs:142-145 | ProcessPlaceholders undoes brace doubling, for every text. |
| Localization.Pieces | Assets/Scripts/Localization/LocalizationManager.cs:224-225 | Splitting at CRLF, CR and LF gives at least one piece, and no piece holds a line break. |
| Localization.SplitLines | Assets/Scripts/Localization/LocalizationManager.cs:222-226 | Every line is non-empty and holds no line break. |
| Localization.SplitLinesJoinLines | Assets/Scripts/Localization/LocalizationManager.cs:222-226 | Splitting undoes joining with LF, for non-empty lines without line breaks. |
| Localization.ParseLine | Assets/Scripts/Localization/LocalizationManager.cs:129-138 | No entry exactly when the line has no `=` or starts with one. |
| Localization.ParseLineSplitsAtFirstEquals | Assets/Scripts/Localization/LocalizationManager.cs:129-138 | The split is at the first `=`. Key and value are trimmed, and the value is unescaped. |
| Localization.EqualsAfterKey | Assets/Scripts/Localization/LocalizationManager.cs:131 | In key + "=" + value with no `=` in key, IndexOf finds the `=` right after the key. |
| Localization.Entry | Assets/Scripts/Localization/LocalizationManager.cs:113-126 | Blank and `#` lines contribute nothing, and a contributed key is never empty. Any other line contributes exactly when ParseLine splits it with a non-empty key, and then its entry is that key with the placeholder-processed value. |
| Localization.KeyValueLineEntry | Assets/Scripts/Localization/LocalizationManager.cs:113-138 | The line key + "=" + value, with a non-blank key free of `=` and not starting with `#`, contributes the trimmed key with the trimmed, unescaped and placeholder-processed value. |
| Localization.AddEntry | Assets/Scripts/Localization/LocalizationManager.cs:124 | The table after one entry: the entry's key gets its value, and every other key is unchanged. |
| Localization.FoldKeys | Assets/Scripts/Localization/LocalizationManager.cs:111-126 | A key is in the folded table exactly when some entry sets it. |
| Localization.FoldLastWins | Assets/Scripts/Localization/LocalizationManager.cs:111-126 | A key's value comes from the last entry that sets it. |
| Localization.TableKeys | Assets/Scripts/Localization/LocalizationManager.cs:109-127 | A key is in the table exactly when some line yields an entry for it. The empty key never is. |
| Localization.TableLastLineWins | Assets/Scripts/Localization/LocalizationManager.cs:109-127 | A key's value comes from the last line that yields an entry for it. |
| Localization.LocalizationManager.constructor | Assets/Scripts/Localization/LocalizationManager.cs:19 | An empty table and the prefix "[MISSING]". |
| Localization.LocalizationManager.ParseLocalizationData | Assets/Scripts/Localization/LocalizationManager.cs:109-127 | The table is replaced by Table(SplitLines(data)). |
| Localization.LocalizationManager.Get | Assets/Scripts/Localization/LocalizationManager.cs:147-164 | A missing key yields the prefix followed by the key. A present key yields its value passed through the formatter. |
| Events.AsDelegate | Assets/Scripts/Event/EventManager.cs:34 | An empty invocation list is the null delegate. |
| Events.RemoveLast | Assets/Scripts/Event/EventManager.cs:34 | Delegate.Remove shortens the list by one exactly when h occurs in it. |
| Events.RemoveLastAbsent | Assets/Scripts/Event/EventManager.cs:34 | Removing an absent handler leaves the list unchanged. |
| Events.RemoveLastCutsLastIndex | Assets/Scripts/Event/EventManager.cs:34 | Delegate.Remove cuts out exactly the last occurrence of h. |
| Events.RemoveLastOfAppended | Assets/Scripts/Event/EventManager.cs:24-34 | Removing right after appending gives back the old list. |
| Events.UntargetedMembership | Assets/Scripts/Event/EventManager.cs:84-90 | The handlers kept are exactly those of the list not bound to the target. |
| Events.TargetedMembership | Assets/Scripts/Event/EventManager.cs:84-90 | The handlers picked are exactly those of the list bound to the target. |
| Events.RemoveLastKeepsType | Assets/Scripts/Event/EventManager.cs:34 | Delegate.Remove keeps a list of one argument type of that type. |
| Events.UntargetedKeepsType | Assets/Scripts/Event/EventManager.cs:84-90 | Dropping the bound handlers keeps a list of one argument type of that type. |
| Events.WithoutTargetWellFormed | Assets/Scripts/Event/EventManager.cs:73-99 | Purging a target keeps every entry either null or a non-empty list of one argument type. |
| Events.RemoveTargetedKeepsOthers | Assets/Scripts/Event/EventManager.cs:86-88 | Removing a handler bound to the target keeps the other handlers, in order. |
| Events.RemoveTargetedDropsOne | Assets/Scripts/Event/EventManager.cs:86-88 | Removing a handler bound to the target drops exactly one occurrence of it from the bound handlers. |
| Events.PurgeStep | Assets/Scripts/Event/EventManager.cs:84-90 | Each iteration of the inner loop keeps its invariant. |
| Events.PurgeDone | Assets/Scripts/Event/EventManager.cs:84-90 | After the whole snapshot, exactly the unbound handlers remain, in order. |
| Events.Collect | Assets/Scripts/Event/EventManager.cs:44-61 | At most one result per handler. |
| Events.CollectAppend | Assets/Scripts/Event/EventManager.cs:44-61 | Collecting over two lists in a row is collecting over each in turn. |
| Events.CollectMembership | Assets/Scripts/Event/EventManager.cs:44-61 | A value is collected exactly when some handler of the right argument type returns it. |
| Events.EventManager.constructor | Assets/Scripts/Event/EventManager.cs:20 | An empty table. |
| Events.EventManager.RegisterEvent | Assets/Scripts/Event/EventManager.cs:22-28 | Fails with TypeMismatch exactly when the name holds a non-null list of another argument type, and then leaves the table unchanged. Otherwise h is appended to the name's list, and a new or cancelled name gets [h]. Every list keeps one argument type. |
| Events.EventManager.UnregisterEvent | Assets/Scripts/Event/EventManager.cs:30-36 | Fails with TypeMismatch exactly when the name holds a non-null list of another argument type, and then leaves the table unchanged. An unknown name is unchanged. Otherwise the last occurrence of h goes, and an emptied list becomes null. |
| Events.EventManager.Remove | Assets/Scripts/Event/EventManager.cs:34 | Delegate.Remove on a possibly null delegate: the list without the last h, or null if that is empty. |
| Events.EventManager.TriggerEvent | Assets/Scripts/Event/EventManager.cs:38-63 | An unknown name gives no results. A cancelled name faults on its null delegate. Otherwise the results are Collect of the list, in order. |
| Events.EventManager.CancelEvent | Assets/Scripts/Event/EventManager.cs:66-71 | A known name gets a null delegate; an unknown name is unchanged. |
| Events.EventManager.PurgeList | Assets/Scripts/Event/EventManager.cs:82-90 | The name's list loses exactly its handlers bound to the target. Other names are unchanged. |
| Events.EventManager.RemoveTargetFrom | Assets/Scripts/Event/EventManager.cs:79-95 | A null entry is skipped. Otherwise bound handlers are removed, and the name is dropped if nothing is left. Other names are unchanged. |
| Events.EventManager.UnregisterAllEventsForObject | Assets/Scripts/Event/EventManager.cs:73-99 | The table becomes WithoutTarget: lists lose the target's handlers, emptied lists are dropped, and null entries stay. The table stays well formed. |
| Events.EventManager.UnregisterAllEvents | Assets/Scripts/Event/EventManager.cs:102-106 | The table is empty. |
| Events.RegisterUnregisterRoundTrip | Assets/Scripts/Event/EventManager.cs:22-36 | Register then unregister of the same handler on a known name, on the path without a type mismatch, restores the table. |
| Events.RegisterUnregisterNewName | Assets/Scripts/Event/EventManager.cs:22-36 | On a new name, register then unregister leaves the name with a null delegate. |
| Events.TriggerAfterRegister | Assets/Scripts/Event/EventManager.cs:38-63 | After a register, the trigger results are the old results plus the new handler's result, if it delivers one. |

## Left out

- UnityEngine.Pool.ObjectPool<T> is not part of the repository, and the model keeps only its stack behaviour.
  - With `collectionCheck` on, Unity's Release throws on an instance that is already idle; the model pushes it again.
  - Unity destroys an instance released while the idle stack holds `maxSize` entries; the model's idle stack has no cap.
  - `defaultCapacity` pre-sizes that stack. Only its rejection of a negative value is observable, and the model has it (`CapacityNegative`).
- ObjectPool.GameObjectPool.CreatePooledItem: assumes the prefab's runtime type is exactly T, so every clone gets the pool's type tag. `Instantiate` clones the prefab's own runtime type, which may be a subclass of T; PoolManager.Release's exact check `obj.GetType() != pool.ObjectType` would then reject every instance of such a pool. The model has no separate prefab type.
- PoolRegistry.PoolManager.Release: an `obj` that is null is not modelled. In the source, `obj.GetType()` then throws NullReferenceException once the id is found.
- ObjectPool.GameObjectPool.Release: states the push of an idle-stack model. It does not state the throw on a second release or the destroy-on-full path of Unity's pool.
- Transform position and rotation (`SetPositionAndRotation`) are not modelled; only the parent is.
- `Object.Destroy` is modelled as immediate (the `destroyed` set). Unity defers destruction to the end of the frame.
- The `if (obj)` check in OnDestroyPoolObject is modelled as "not yet destroyed".
- Instance identity is a per-pool serial rather than Unity's global instance id.
- PoolRegistry.PoolManager.DisposeAllPools: assumes no pool's teardown raises. In the source such an exception leaves DisposeAllPools after the failing pool has been unregistered. DisposePool models that path through `teardownRaises`.
- `DontDestroyOnLoad` is not modelled. Neither is the `IObjectPool` interface (`IObjectPool.cs`). PoolManager.Release checks `obj.GetType() != pool.ObjectType` exactly, so the later `obj as T` in the pool always succeeds and is not modelled.
- PoolRegistry.FindContainer: an id holding '/' is modelled as finding no container. `Transform.Find` would walk a path whose first step is a child of the root; the model keeps only the containers among the root's children. So a path through a pooled instance or a container that happens to match is not modelled.
- All `Debug.Log*` calls are left out.
- KeySettingManager's persistence is left out: the JSON file, `InitializeFilePath`, `LoadKeySettings` with an existing file, and `SaveKeySettings`. So are the event-firing helpers `TriggerKeyEvent`, `TriggerConflictEvent` and `TriggerSettingsEvent`, and `GetAllMappings`. These are file I/O and calls into EventManager. The constructor models Awake when no settings file exists.
- `Update`/`UpdateMovementInput` and the `Vector2` direction are left out. `GetAxis` is modelled over integers, with the key state (Input.GetKey) passed in as `pressed`.
- LocalizationManager's loading path is left out: `Awake`, `InitializeLanguage`, `DetectSystemLanguage`, `LoadLanguage` and the `LoadLanguageAsync` coroutine. These are Unity resource loading and the system language. So are `RegisterEvents`, `HandleLanguageChange`, the text-component list with `UpdateAllTexts`, and `GetRawData`/`ReloadCurrentLanguage`.
- Localization.LocalizationManager.Get: `string.Format`, and its fallback to the raw value on a FormatException, is the caller-supplied function `format`.
- Null strings are not modelled: texts are sequences of characters.
- `line.StartsWith("#")` is culture-sensitive in .NET; it is modelled as an ordinal test of the first character.
- `RegisterEventHandlersFromAttributes` and `EventSubscribeAttribute` (reflection) are left out.
- Delegate variance is not modelled: a handler matches a trigger only on the exact argument type, and two delegates have the same type exactly when their argument types are equal.
- Events.EventManager.TriggerEvent: the argument value is not modelled. A handler's outcome (a returned value, or an exception) is fixed per handler, and returned objects are integers.
- The ScreenAspect and Editor files and `LocalizedText.cs` are outside the modelled core.
