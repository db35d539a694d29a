/**
 * EventManager: a table from an event name to a multicast delegate. A
 * delegate is modelled as its invocation list, with None standing for C#'s
 * null delegate. Registering appends a handler (Delegate.Combine),
 * unregistering removes its last occurrence (Delegate.Remove), cancelling
 * keeps the name with a null delegate, and triggering invokes the handlers
 * in order and collects the results of those whose argument type matches
 * and that do not throw.
 */
module Events {
  import opened Wrappers

  /** An object a handler is bound to (Delegate.Target); None for a static method. */
  type ObjectRef = nat
  type TypeTag = nat

  /** What invoking a handler does: return a value, or throw. */
  datatype Outcome = Returns(value: int) | Throws

  /**
   * A single-cast delegate: the method and the target it is bound to (which
   * decide delegate equality), the argument type T of its Func<T, object>
   * and what invoking it does.
   */
  datatype Handler = Handler(code: nat, target: Option<ObjectRef>, argType: TypeTag, outcome: Outcome)

  /** A multicast delegate as its invocation list; None is null. */
  type Delegate = Option<seq<Handler>>

  /** TriggerEvent on a cancelled name calls GetInvocationList on null. */
  datatype TriggerFault = NullDelegate

  /**
   * Delegate.Combine and Delegate.Remove throw ArgumentException when both
   * delegates are non-null and of different types.
   */
  datatype DelegateFault = TypeMismatch

  /** The invocation list registered under name; empty when there is none. */
  function InvocationList(table: map<string, Delegate>, name: string): seq<Handler> {
    if name in table && table[name].Some? then table[name].value else []
  }

  /** All handlers of an invocation list share one delegate type: Func<T, object> for one T. */
  predicate OneType(hs: seq<Handler>) {
    forall x, y | x in hs && y in hs :: x.argType == y.argType
  }

  /**
   * Whether combining h with, or removing it from, the delegate of name
   * throws: that delegate is non-null and of another type than h.
   */
  predicate TypeClash(table: map<string, Delegate>, name: string, h: Handler) {
    var hs := InvocationList(table, name);
    hs != [] && hs[0].argType != h.argType
  }

  /** The delegate with a given invocation list: an empty list is null. */
  function AsDelegate(hs: seq<Handler>): (d: Delegate)
    ensures d.None? <==> hs == []
  {
    if hs == [] then None else Some(hs)
  }

  /** The position of the last occurrence of h: the search runs from the end of the list. */
  function LastIndex(hs: seq<Handler>, h: Handler): (k: nat)
    requires h in hs
    ensures k < |hs| && hs[k] == h && h !in hs[k + 1..]
    decreases |hs|
  {
    if hs[|hs| - 1] == h then |hs| - 1
    else
      assert hs == hs[..|hs| - 1] + [hs[|hs| - 1]];
      var k := LastIndex(hs[..|hs| - 1], h);
      assert hs[k + 1..] == hs[..|hs| - 1][k + 1..] + [hs[|hs| - 1]];
      k
  }

  /** Delegate.Remove of a single handler from an invocation list: its last occurrence goes. */
  function RemoveLast(hs: seq<Handler>, h: Handler): (r: seq<Handler>)
    ensures |r| == if h in hs then |hs| - 1 else |hs|
    decreases |hs|
  {
    if hs == [] then []
    else if hs[|hs| - 1] == h then hs[..|hs| - 1]
    else
      assert hs == hs[..|hs| - 1] + [hs[|hs| - 1]];
      RemoveLast(hs[..|hs| - 1], h) + [hs[|hs| - 1]]
  }

  /** RemoveLast leaves a list without h alone. */
  lemma {:induction false} RemoveLastAbsent(hs: seq<Handler>, h: Handler)
    requires h !in hs
    ensures RemoveLast(hs, h) == hs
    decreases |hs|
  {
    if hs != [] {
      RemoveLastAbsent(hs[..|hs| - 1], h);
      assert hs == hs[..|hs| - 1] + [hs[|hs| - 1]];
    }
  }

  /** RemoveLast cuts out exactly the last occurrence of h. */
  lemma {:induction false} RemoveLastCutsLastIndex(hs: seq<Handler>, h: Handler)
    requires h in hs
    ensures RemoveLast(hs, h) == hs[..LastIndex(hs, h)] + hs[LastIndex(hs, h) + 1..]
    decreases |hs|
  {
    var init := hs[..|hs| - 1];
    if hs[|hs| - 1] != h {
      assert hs == init + [hs[|hs| - 1]];
      var k := LastIndex(init, h);
      RemoveLastCutsLastIndex(init, h);
      assert LastIndex(hs, h) == k;
      assert RemoveLast(hs, h) == RemoveLast(init, h) + [hs[|hs| - 1]];
      assert init[..k] == hs[..k];
      assert init[k + 1..] + [hs[|hs| - 1]] == hs[k + 1..];
    } else {
      assert LastIndex(hs, h) == |hs| - 1 && RemoveLast(hs, h) == init;
      assert hs[|hs|..] == [];
    }
  }

  /** Removing a handler keeps a list of one delegate type of that type. */
  lemma RemoveLastKeepsType(hs: seq<Handler>, h: Handler)
    requires OneType(hs)
    ensures OneType(RemoveLast(hs, h))
  {
    if h in hs {
      RemoveLastCutsLastIndex(hs, h);
      var k := LastIndex(hs, h);
      assert forall x | x in RemoveLast(hs, h) :: x in hs[..k] || x in hs[k + 1..];
    } else {
      RemoveLastAbsent(hs, h);
    }
  }

  /** Unregistering a handler right after registering it gives back the old list. */
  lemma RemoveLastOfAppended(hs: seq<Handler>, h: Handler)
    ensures RemoveLast(hs + [h], h) == hs
  {
    assert (hs + [h])[..|hs|] == hs;
  }

  /** The handlers not bound to target, in order. */
  function Untargeted(hs: seq<Handler>, target: Option<ObjectRef>): (r: seq<Handler>)
    ensures |r| <= |hs|
    decreases |hs|
  {
    if hs == [] then []
    else if hs[0].target == target then Untargeted(hs[1..], target)
    else [hs[0]] + Untargeted(hs[1..], target)
  }

  /** The handlers bound to target, in order. */
  function Targeted(hs: seq<Handler>, target: Option<ObjectRef>): (r: seq<Handler>)
    ensures |r| <= |hs|
    decreases |hs|
  {
    if hs == [] then []
    else if hs[0].target == target then [hs[0]] + Targeted(hs[1..], target)
    else Targeted(hs[1..], target)
  }

  /** Dropping the handlers bound to target distributes over concatenation. */
  lemma {:induction false} UntargetedAppend(a: seq<Handler>, b: seq<Handler>, target: Option<ObjectRef>)
    ensures Untargeted(a + b, target) == Untargeted(a, target) + Untargeted(b, target)
    decreases |a|
  {
    if a == [] {
      assert a + b == b;
    } else {
      UntargetedAppend(a[1..], b, target);
      assert (a + b)[1..] == a[1..] + b;
      assert (a + b)[0] == a[0];
      if a[0].target != target {
        assert [a[0]] + (Untargeted(a[1..], target) + Untargeted(b, target))
            == ([a[0]] + Untargeted(a[1..], target)) + Untargeted(b, target);
      }
    }
  }

  /** Picking the handlers bound to target distributes over concatenation. */
  lemma {:induction false} TargetedAppend(a: seq<Handler>, b: seq<Handler>, target: Option<ObjectRef>)
    ensures Targeted(a + b, target) == Targeted(a, target) + Targeted(b, target)
    decreases |a|
  {
    if a == [] {
      assert a + b == b;
    } else {
      TargetedAppend(a[1..], b, target);
      assert (a + b)[1..] == a[1..] + b;
      assert (a + b)[0] == a[0];
      if a[0].target == target {
        assert [a[0]] + (Targeted(a[1..], target) + Targeted(b, target))
            == ([a[0]] + Targeted(a[1..], target)) + Targeted(b, target);
      }
    }
  }

  /** The handlers kept are exactly those of the list not bound to target. */
  lemma {:induction false} UntargetedMembership(hs: seq<Handler>, target: Option<ObjectRef>, x: Handler)
    ensures x in Untargeted(hs, target) <==> x in hs && x.target != target
    decreases |hs|
  {
    if hs != [] {
      UntargetedMembership(hs[1..], target, x);
      assert hs == [hs[0]] + hs[1..];
    }
  }

  /** The handlers picked are exactly those of the list bound to target. */
  lemma {:induction false} TargetedMembership(hs: seq<Handler>, target: Option<ObjectRef>, x: Handler)
    ensures x in Targeted(hs, target) <==> x in hs && x.target == target
    decreases |hs|
  {
    if hs != [] {
      TargetedMembership(hs[1..], target, x);
      assert hs == [hs[0]] + hs[1..];
    }
  }

  /** Dropping the handlers bound to target keeps a list of one delegate type of that type. */
  lemma UntargetedKeepsType(hs: seq<Handler>, target: Option<ObjectRef>)
    requires OneType(hs)
    ensures OneType(Untargeted(hs, target))
  {
    forall x | x in Untargeted(hs, target)
      ensures x in hs
    {
      UntargetedMembership(hs, target, x);
    }
  }

  /** Removing a handler bound to target keeps the other handlers, in order. */
  lemma {:induction false} RemoveTargetedKeepsOthers(hs: seq<Handler>, h: Handler, target: Option<ObjectRef>)
    requires h.target == target
    ensures Untargeted(RemoveLast(hs, h), target) == Untargeted(hs, target)
    decreases |hs|
  {
    if hs != [] {
      var init, last := hs[..|hs| - 1], hs[|hs| - 1];
      assert hs == init + [last];
      UntargetedAppend(init, [last], target);
      if last != h {
        RemoveTargetedKeepsOthers(init, h, target);
        UntargetedAppend(RemoveLast(init, h), [last], target);
      } else {
        assert Untargeted([last], target) == [];
      }
    }
  }

  /** Removing a handler bound to target drops one occurrence of it from the bound handlers. */
  lemma {:induction false} RemoveTargetedDropsOne(hs: seq<Handler>, h: Handler, target: Option<ObjectRef>)
    requires h.target == target
    ensures multiset(Targeted(RemoveLast(hs, h), target)) == multiset(Targeted(hs, target)) - multiset{h}
    decreases |hs|
  {
    if hs != [] {
      var init, last := hs[..|hs| - 1], hs[|hs| - 1];
      assert hs == init + [last];
      TargetedAppend(init, [last], target);
      var lastPart := Targeted([last], target);
      assert multiset(Targeted(hs, target)) == multiset(Targeted(init, target)) + multiset(lastPart);
      if last != h {
        assert RemoveLast(hs, h) == RemoveLast(init, h) + [last];
        RemoveTargetedDropsOne(init, h, target);
        TargetedAppend(RemoveLast(init, h), [last], target);
        assert h !in multiset(lastPart) by {
          assert lastPart == [] || lastPart == [last];
        }
        calc {
          multiset(Targeted(RemoveLast(hs, h), target));
          multiset(Targeted(RemoveLast(init, h), target)) + multiset(lastPart);
          (multiset(Targeted(init, target)) - multiset{h}) + multiset(lastPart);
          (multiset(Targeted(init, target)) + multiset(lastPart)) - multiset{h};
        }
      } else {
        assert RemoveLast(hs, h) == init;
        assert lastPart == [h];
      }
    }
  }

  /** A list with no handler bound to target is its own untargeted part. */
  lemma {:induction false} NothingTargeted(hs: seq<Handler>, target: Option<ObjectRef>)
    requires Targeted(hs, target) == []
    ensures Untargeted(hs, target) == hs
    decreases |hs|
  {
    if hs != [] {
      NothingTargeted(hs[1..], target);
      assert hs == [hs[0]] + hs[1..];
    }
  }

  /**
   * The invariant of the purge loop after i handlers of the snapshot hs: the
   * handlers not bound to target have not changed, and the bound ones left
   * in current are those of the rest of the snapshot.
   */
  ghost predicate Purging(current: seq<Handler>, hs: seq<Handler>, i: nat, target: Option<ObjectRef>)
    requires i <= |hs|
  {
    && Untargeted(current, target) == Untargeted(hs, target)
    && multiset(Targeted(current, target)) == multiset(Targeted(hs[i..], target))
  }

  /** One iteration of the purge loop keeps its invariant. */
  lemma PurgeStep(current: seq<Handler>, hs: seq<Handler>, i: nat, target: Option<ObjectRef>)
    requires i < |hs| && Purging(current, hs, i, target)
    ensures Purging(if hs[i].target == target then RemoveLast(current, hs[i]) else current, hs, i + 1, target)
  {
    var h := hs[i];
    assert hs[i..] == [h] + hs[i + 1..];
    assert ([h] + hs[i + 1..])[1..] == hs[i + 1..];
    if h.target == target {
      RemoveTargetedKeepsOthers(current, h, target);
      RemoveTargetedDropsOne(current, h, target);
      assert Targeted(hs[i..], target) == [h] + Targeted(hs[i + 1..], target);
    } else {
      assert Targeted(hs[i..], target) == Targeted(hs[i + 1..], target);
    }
  }

  /** Once the whole snapshot is processed, exactly the handlers not bound to target are left, in order. */
  lemma PurgeDone(current: seq<Handler>, hs: seq<Handler>, target: Option<ObjectRef>)
    requires Purging(current, hs, |hs|, target)
    ensures current == Untargeted(hs, target)
  {
    assert hs[|hs|..] == [] && Targeted([], target) == [];
    assert |Targeted(current, target)| == |multiset(Targeted(current, target))| == 0;
    NothingTargeted(current, target);
  }

  /** Whether invoking h with an argument of type argType returns a value. */
  predicate Delivers(h: Handler, argType: TypeTag) {
    h.argType == argType && h.outcome.Returns?
  }

  /** The results TriggerEvent collects, in invocation order. */
  function Collect(hs: seq<Handler>, argType: TypeTag): (results: seq<int>)
    ensures |results| <= |hs|
    decreases |hs|
  {
    if hs == [] then []
    else
      var h := hs[|hs| - 1];
      Collect(hs[..|hs| - 1], argType) + (if Delivers(h, argType) then [h.outcome.value] else [])
  }

  /** Collecting over two lists in a row is collecting over each in turn. */
  lemma {:induction false} CollectAppend(a: seq<Handler>, b: seq<Handler>, argType: TypeTag)
    ensures Collect(a + b, argType) == Collect(a, argType) + Collect(b, argType)
    decreases |b|
  {
    if b != [] {
      var init := b[..|b| - 1];
      CollectAppend(a, init, argType);
      assert (a + b)[..|a + b| - 1] == a + init;
      assert (a + b)[|a + b| - 1] == b[|b| - 1];
    } else {
      assert a + b == a;
    }
  }

  /**
   * A value is collected exactly when some handler of the right argument
   * type returns it; a handler of another type or one that throws
   * contributes nothing and does not stop the others.
   */
  lemma {:induction false} CollectMembership(hs: seq<Handler>, argType: TypeTag, v: int)
    ensures v in Collect(hs, argType) <==>
      exists i | 0 <= i < |hs| :: Delivers(hs[i], argType) && hs[i].outcome.value == v
    decreases |hs|
  {
    if hs != [] {
      var init := hs[..|hs| - 1];
      CollectMembership(init, argType, v);
      if exists i | 0 <= i < |init| :: Delivers(init[i], argType) && init[i].outcome.value == v {
        var i :| 0 <= i < |init| && Delivers(init[i], argType) && init[i].outcome.value == v;
        assert hs[i] == init[i];
      }
      if exists i | 0 <= i < |hs| :: Delivers(hs[i], argType) && hs[i].outcome.value == v {
        var i :| 0 <= i < |hs| && Delivers(hs[i], argType) && hs[i].outcome.value == v;
        if i < |init| {
          assert init[i] == hs[i];
        }
      }
    }
  }

  /** Whether an entry survives UnregisterAllEventsForObject: a null entry is kept, a list only if something is left. */
  predicate Survives(d: Delegate, target: Option<ObjectRef>) {
    d.None? || Untargeted(d.value, target) != []
  }

  /** An entry once the handlers bound to target are removed from it. */
  function Purged(d: Delegate, target: Option<ObjectRef>): Delegate {
    if d.None? then None else Some(Untargeted(d.value, target))
  }

  /** The table after every handler bound to target is removed and emptied lists are dropped. */
  function WithoutTarget(table: map<string, Delegate>, target: Option<ObjectRef>): map<string, Delegate> {
    map name | name in table && Survives(table[name], target) :: Purged(table[name], target)
  }

  /**
   * No entry holds an empty invocation list (Delegate.Remove yields null
   * instead), and every list has one delegate type, since Delegate.Combine
   * refuses to mix types.
   */
  ghost predicate WellFormed(table: map<string, Delegate>) {
    forall name | name in table && table[name].Some? :: table[name].value != [] && OneType(table[name].value)
  }

  /** Removing every handler bound to a target keeps the table well formed. */
  lemma WithoutTargetWellFormed(table: map<string, Delegate>, target: Option<ObjectRef>)
    requires WellFormed(table)
    ensures WellFormed(WithoutTarget(table, target))
  {
    forall name | name in WithoutTarget(table, target) && WithoutTarget(table, target)[name].Some?
      ensures OneType(WithoutTarget(table, target)[name].value)
    {
      UntargetedKeepsType(table[name].value, target);
    }
  }

  class EventManager {
    var handlers: map<string, Delegate>

    ghost predicate Valid()
      reads this
    {
      WellFormed(handlers)
    }

    constructor ()
      ensures Valid() && handlers == map[]
    {
      handlers := map[];
    }

    /**
     * Appends h to the invocation list of name; a new or cancelled name gets
     * the list [h]. A list of another delegate type makes Delegate.Combine
     * throw, and the table is left as it was.
     */
    method RegisterEvent(name: string, h: Handler) returns (r: Result<(), DelegateFault>)
      requires Valid()
      modifies this
      ensures Valid()
      ensures r.Failure? <==> TypeClash(old(handlers), name, h)
      ensures r.Failure? ==> handlers == old(handlers)
      ensures r.Success? ==> handlers == old(handlers)[name := Some(InvocationList(old(handlers), name) + [h])]
    {
      assert [] + [h] == [h];
      if name !in handlers {
        handlers := handlers[name := Some([h])];
      } else {
        match handlers[name] {
          case None =>
            handlers := handlers[name := Some([h])];
          case Some(hs) =>
            if hs[0].argType != h.argType {
              return Failure(TypeMismatch);
            }
            handlers := handlers[name := Some(hs + [h])];
        }
      }
      return Success(());
    }

    /**
     * Removes the last occurrence of h from the list of name; an unknown name
     * is left alone, and a list that empties leaves the name with null. A
     * list of another delegate type makes Delegate.Remove throw, and the
     * table is left as it was.
     */
    method UnregisterEvent(name: string, h: Handler) returns (r: Result<(), DelegateFault>)
      requires Valid()
      modifies this
      ensures Valid()
      ensures r.Failure? <==> TypeClash(old(handlers), name, h)
      ensures r.Failure? || name !in old(handlers) ==> handlers == old(handlers)
      ensures r.Success? && name in old(handlers) ==>
        handlers == old(handlers)[name := AsDelegate(RemoveLast(InvocationList(old(handlers), name), h))]
    {
      if name in handlers {
        var d := handlers[name];
        if d.Some? && d.value[0].argType != h.argType {
          return Failure(TypeMismatch);
        }
        if d.Some? {
          RemoveLastKeepsType(d.value, h);
        }
        handlers := handlers[name := Remove(d, h)];
      }
      return Success(());
    }

    /** Delegate.Remove on a possibly null delegate. */
    static function Remove(d: Delegate, h: Handler): (r: Delegate)
      ensures r == AsDelegate(RemoveLast(if d.Some? then d.value else [], h))
    {
      match d
      case None => None
      case Some(hs) => var rest := RemoveLast(hs, h); if rest == [] then None else Some(rest)
    }

    /**
     * Invokes the handlers of name in order with an argument of type argType
     * and collects the returned values. An unknown name gives no results; a
     * cancelled name fails on its null delegate.
     */
    method TriggerEvent(name: string, argType: TypeTag) returns (r: Result<seq<int>, TriggerFault>)
      ensures name !in handlers ==> r == Success([])
      ensures name in handlers && handlers[name].None? ==> r == Failure(NullDelegate)
      ensures name in handlers && handlers[name].Some? ==> r == Success(Collect(handlers[name].value, argType))
    {
      if name !in handlers {
        return Success([]);
      }
      var eventHandler := handlers[name];
      if eventHandler.None? {
        return Failure(NullDelegate);
      }
      var hs := eventHandler.value;
      var results: seq<int> := [];
      var i := 0;
      while i < |hs|
        invariant 0 <= i <= |hs|
        invariant results == Collect(hs[..i], argType)
      {
        var h := hs[i];
        assert hs[..i + 1][..i] == hs[..i];
        if h.argType == argType {
          match h.outcome {
            case Returns(v) =>
              results := results + [v];
            case Throws =>
          }
        }
        i := i + 1;
      }
      assert hs[..i] == hs;
      return Success(results);
    }

    /** Keeps a known name with a null delegate; an unknown name is left alone. */
    method CancelEvent(name: string)
      requires Valid()
      modifies this
      ensures Valid()
      ensures name !in old(handlers) ==> handlers == old(handlers)
      ensures name in old(handlers) ==> handlers == old(handlers)[name := None]
    {
      if name !in handlers {
        return;
      }
      handlers := handlers[name := None];
    }

    /**
     * The inner loop of UnregisterAllEventsForObject: removes, one by one,
     * every handler of name's list bound to target.
     */
    method PurgeList(name: string, target: Option<ObjectRef>)
      requires name in handlers && handlers[name].Some? && handlers[name].value != []
      modifies this
      ensures name in handlers && handlers == old(handlers)[name := handlers[name]]
      ensures InvocationList(handlers, name) == Untargeted(old(handlers)[name].value, target)
    {
      var hs := handlers[name].value;
      ghost var original := handlers;
      ghost var current := hs;
      assert hs[0..] == hs;
      var i := 0;
      while i < |hs|
        invariant 0 <= i <= |hs|
        invariant name in handlers && handlers == original[name := handlers[name]]
        invariant handlers[name] == AsDelegate(current)
        invariant Purging(current, hs, i, target)
      {
        var h := hs[i];
        PurgeStep(current, hs, i, target);
        if h.target == target {
          handlers := handlers[name := Remove(handlers[name], h)];
          current := RemoveLast(current, h);
        }
        i := i + 1;
      }
      PurgeDone(current, hs, target);
      assert InvocationList(handlers, name) == current;
    }

    /**
     * One iteration of UnregisterAllEventsForObject: a null entry is skipped;
     * otherwise the handlers bound to target are removed and the name is
     * dropped if nothing is left.
     */
    method RemoveTargetFrom(name: string, target: Option<ObjectRef>)
      requires name in handlers && handlers[name] != Some([])
      modifies this
      ensures var d := old(handlers)[name];
        handlers == if Survives(d, target) then old(handlers)[name := Purged(d, target)] else old(handlers) - {name}
    {
      var eventHandler := handlers[name];
      if eventHandler.None? {
        return;
      }
      PurgeList(name, target);
      if handlers[name].None? || |handlers[name].value| == 0 {
        handlers := handlers - {name};
        assert handlers == old(handlers) - {name};
      }
    }

    /** Removes every handler bound to target from every list, dropping lists that empty. */
    method UnregisterAllEventsForObject(target: Option<ObjectRef>)
      requires Valid()
      modifies this
      ensures Valid()
      ensures handlers == WithoutTarget(old(handlers), target)
    {
      var names := handlers.Keys;
      while names != {}
        invariant names <= old(handlers).Keys && handlers.Keys <= old(handlers).Keys
        invariant forall name | name in names :: name in handlers && handlers[name] == old(handlers)[name]
        invariant forall name | name in old(handlers) && name !in names ::
          name in handlers <==> Survives(old(handlers)[name], target)
        invariant forall name | name in handlers && name !in names ::
          handlers[name] == Purged(old(handlers)[name], target)
        decreases names
      {
        var name :| name in names;
        RemoveTargetFrom(name, target);
        names := names - {name};
      }
      assert handlers.Keys == WithoutTarget(old(handlers), target).Keys;
      WithoutTargetWellFormed(old(handlers), target);
    }

    /** Clears the table. */
    method UnregisterAllEvents()
      modifies this
      ensures Valid() && handlers == map[]
    {
      handlers := map[];
    }
  }

  /** Register then unregister of the same handler on a known name restores the table. */
  lemma RegisterUnregisterRoundTrip(table: map<string, Delegate>, name: string, h: Handler)
    requires name in table && table[name] != Some([])
    ensures var registered := table[name := Some(InvocationList(table, name) + [h])];
      registered[name := AsDelegate(RemoveLast(InvocationList(registered, name), h))] == table
  {
    RemoveLastOfAppended(InvocationList(table, name), h);
  }

  /** Register then unregister on a new name leaves that name with a null entry. */
  lemma RegisterUnregisterNewName(table: map<string, Delegate>, name: string, h: Handler)
    requires name !in table
    ensures var registered := table[name := Some(InvocationList(table, name) + [h])];
      registered[name := AsDelegate(RemoveLast(InvocationList(registered, name), h))] == table[name := None]
  {
    RemoveLastOfAppended([], h);
  }

  /** Triggering after registering appends the new handler's result, if any, to the old results. */
  lemma TriggerAfterRegister(hs: seq<Handler>, h: Handler, argType: TypeTag)
    ensures Collect(hs + [h], argType) == Collect(hs, argType) + (if Delivers(h, argType) then [h.outcome.value] else [])
  {
    CollectAppend(hs, [h], argType);
    assert [h][..0] == [];
  }

  /**
   * A cancelled name fails on trigger, and registering on it again restores a
   * single-handler list.
   */
  method CancelScenario(h: Handler)
  {
    var events := new EventManager();
    var ok := events.RegisterEvent("OnLanguageChanged", h);
    assert [] + [h] == [h];
    assert events.handlers == map["OnLanguageChanged" := Some([h])];
    events.CancelEvent("OnLanguageChanged");
    assert events.handlers == map["OnLanguageChanged" := None];
    var r := events.TriggerEvent("OnLanguageChanged", h.argType);
    assert r == Failure(NullDelegate);
    assert InvocationList(events.handlers, "OnLanguageChanged") == [];
    ok := events.RegisterEvent("OnLanguageChanged", h);
    assert events.handlers == map["OnLanguageChanged" := Some([h])];
    r := events.TriggerEvent("OnLanguageChanged", h.argType);
    TriggerAfterRegister([], h, h.argType);
    assert Collect([h], h.argType) == (if Delivers(h, h.argType) then [h.outcome.value] else []);
    assert r == Success(if h.outcome.Returns? then [h.outcome.value] else []);
  }

  /**
   * A handler of another argument type cannot join a name's list: both
   * Delegate.Combine and Delegate.Remove throw and leave the list as it was.
   */
  method TypeClashScenario(h: Handler, g: Handler)
    requires h.argType != g.argType
  {
    var events := new EventManager();
    var ok := events.RegisterEvent("OnKeyChanged", h);
    assert [] + [h] == [h];
    assert events.handlers == map["OnKeyChanged" := Some([h])];
    assert TypeClash(events.handlers, "OnKeyChanged", g);
    ok := events.RegisterEvent("OnKeyChanged", g);
    assert ok.Failure?;
    ok := events.UnregisterEvent("OnKeyChanged", g);
    assert ok.Failure?;
    assert events.handlers == map["OnKeyChanged" := Some([h])];
  }
}
