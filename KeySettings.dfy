/**
 * KeySettingManager: the table from action names to key bindings.
 *
 * A KeyMapping is a heap object, as in the source: the table stores the very
 * objects of the default-mapping array when it fills in defaults, and a
 * key change writes into the stored object. A change to a default action's
 * key therefore also changes the default array, and a later reset restores
 * the default action names with whatever keys those objects now hold.
 *
 * Key codes are the values of UnityEngine.KeyCode; whether a key is held
 * down (Input.GetKey) is the parameter `pressed`.
 */
module KeySettings {
  import opened Wrappers

  /** A UnityEngine.KeyCode value. */
  type KeyCode = int

  const KeyA: KeyCode := 97
  const KeyD: KeyCode := 100
  const KeyJ: KeyCode := 106
  const KeyS: KeyCode := 115
  const KeyW: KeyCode := 119

  /** The five default actions, in the order of the default-mapping array. */
  const DefaultActions: seq<string> := ["Attack", "Left", "Right", "Up", "Down"]
  const DefaultKeys: seq<KeyCode> := [KeyJ, KeyA, KeyD, KeyW, KeyS]
  const DefaultBindings: map<string, KeyCode> :=
    map["Attack" := KeyJ, "Left" := KeyA, "Right" := KeyD, "Up" := KeyW, "Down" := KeyS]

  /** Where a default action sits in the default-mapping array. */
  function DefaultActionIndex(name: string): (i: nat)
    requires name in DefaultBindings
    ensures i < 5 && DefaultActions[i] == name
  {
    if name == "Attack" then 0 else if name == "Left" then 1 else if name == "Right" then 2
    else if name == "Up" then 3 else 4
  }

  /** No two actions share a key. */
  ghost predicate NoSharedKeys(bindings: map<string, KeyCode>) {
    forall a, b | a in bindings && b in bindings && a != b :: bindings[a] != bindings[b]
  }

  class KeyMapping {
    /** Never reassigned once the mapping exists. */
    const actionName: string
    var keyCode: KeyCode

    constructor (actionName: string, keyCode: KeyCode)
      ensures this.actionName == actionName && this.keyCode == keyCode
    {
      this.actionName := actionName;
      this.keyCode := keyCode;
    }
  }

  /** The action names of a sequence of mappings. */
  function ActionNames(ms: seq<KeyMapping>): set<string> {
    if ms == [] then {} else ActionNames(ms[..|ms| - 1]) + {ms[|ms| - 1].actionName}
  }

  /**
   * The table after the fill-in loop: each mapping of ms, in order, is
   * stored under its action name unless that name is already bound.
   */
  function WithDefaults(table: map<string, KeyMapping>, ms: seq<KeyMapping>): map<string, KeyMapping> {
    if ms == [] then table
    else
      var before := WithDefaults(table, ms[..|ms| - 1]);
      var m := ms[|ms| - 1];
      if m.actionName in before then before else before[m.actionName := m]
  }

  /** Filling in binds exactly the names already bound and those of ms; bound names keep their object. */
  lemma {:induction false} WithDefaultsKeys(table: map<string, KeyMapping>, ms: seq<KeyMapping>)
    ensures WithDefaults(table, ms).Keys == table.Keys + ActionNames(ms)
    ensures forall name | name in table :: WithDefaults(table, ms)[name] == table[name]
  {
    if ms != [] {
      WithDefaultsKeys(table, ms[..|ms| - 1]);
    }
  }

  /** Filling in keeps every entry stored under its own action name. */
  lemma {:induction false} WithDefaultsNamed(table: map<string, KeyMapping>, ms: seq<KeyMapping>)
    requires forall name | name in table :: table[name].actionName == name
    ensures forall name | name in WithDefaults(table, ms) :: WithDefaults(table, ms)[name].actionName == name
  {
    if ms != [] {
      WithDefaultsNamed(table, ms[..|ms| - 1]);
    }
  }

  /** A name not yet bound and carried by one mapping of ms only is bound to that mapping. */
  lemma {:induction false} WithDefaultsStores(table: map<string, KeyMapping>, ms: seq<KeyMapping>, i: nat)
    requires i < |ms| && ms[i].actionName !in table
    requires forall j | 0 <= j < |ms| && j != i :: ms[j].actionName != ms[i].actionName
    ensures ms[i].actionName in WithDefaults(table, ms) && WithDefaults(table, ms)[ms[i].actionName] == ms[i]
  {
    var init := ms[..|ms| - 1];
    if i < |ms| - 1 {
      WithDefaultsStores(table, init, i);
    } else {
      WithDefaultsKeys(table, init);
      ActionNamesMembers(init, ms[i].actionName);
    }
  }

  /** A name is among the action names exactly when some mapping carries it. */
  lemma {:induction false} ActionNamesMembers(ms: seq<KeyMapping>, name: string)
    ensures name in ActionNames(ms) <==> exists j | 0 <= j < |ms| :: ms[j].actionName == name
  {
    if ms != [] {
      var init := ms[..|ms| - 1];
      ActionNamesMembers(init, name);
      if name in ActionNames(init) {
        var j :| 0 <= j < |init| && init[j].actionName == name;
        assert ms[j] == init[j];
      }
      if exists j | 0 <= j < |ms| :: ms[j].actionName == name {
        var j :| 0 <= j < |ms| && ms[j].actionName == name;
        if j < |init| {
          assert init[j] == ms[j];
        }
      }
    }
  }

  class KeySettingManager {
    var keyMappingDict: map<string, KeyMapping>
    /** The readonly default-mapping array; its slots are never reassigned. */
    const defaultMappings: seq<KeyMapping>

    /** The default-mapping array holds one object per default action, in order. */
    ghost predicate DefaultsInPlace() {
      && |defaultMappings| == 5
      && (forall i | 0 <= i < 5 :: defaultMappings[i].actionName == DefaultActions[i])
    }

    ghost predicate Valid()
      reads this
    {
      && DefaultsInPlace()
      && (forall name | name in keyMappingDict :: keyMappingDict[name].actionName == name)
    }

    /** The binding each action currently has. */
    ghost function Bindings(): map<string, KeyCode>
      reads this, keyMappingDict.Values
    {
      map name | name in keyMappingDict :: keyMappingDict[name].keyCode
    }

    /** Awake with no settings file: the defaults, as the very default objects. */
    constructor ()
      ensures Valid()
      ensures keyMappingDict.Keys == DefaultBindings.Keys
      ensures forall i | 0 <= i < 5 :: keyMappingDict[DefaultActions[i]] == defaultMappings[i]
      ensures Bindings() == DefaultBindings
      ensures forall i | 0 <= i < 5 :: fresh(defaultMappings[i])
    {
      var attack := new KeyMapping("Attack", KeyJ);
      var left := new KeyMapping("Left", KeyA);
      var right := new KeyMapping("Right", KeyD);
      var up := new KeyMapping("Up", KeyW);
      var down := new KeyMapping("Down", KeyS);
      defaultMappings := [attack, left, right, up, down];
      keyMappingDict := map[];
      new;
      EnsureDefaultMappings();
      assert DefaultActions[0] == "Attack" && DefaultActions[1] == "Left" && DefaultActions[2] == "Right";
      assert DefaultActions[3] == "Up" && DefaultActions[4] == "Down";
      assert keyMappingDict["Attack"] == attack && keyMappingDict["Left"] == left;
      assert keyMappingDict["Right"] == right && keyMappingDict["Up"] == up && keyMappingDict["Down"] == down;
    }

    /**
     * Binds a new action to key. An empty name changes nothing; an existing
     * name is rebound only with overwrite, and then without a conflict check.
     */
    method AddKeyMapping(actionName: string, defaultKey: KeyCode, overwrite: bool)
      requires Valid()
      modifies this, if actionName in keyMappingDict then {keyMappingDict[actionName]} else {}
      ensures Valid()
      ensures actionName == [] ==> keyMappingDict == old(keyMappingDict) && Bindings() == old(Bindings())
      ensures actionName != [] && actionName in old(keyMappingDict) ==>
        && keyMappingDict == old(keyMappingDict)
        && Bindings() == if overwrite then old(Bindings())[actionName := defaultKey] else old(Bindings())
      ensures actionName != [] && actionName !in old(keyMappingDict) ==>
        && actionName in keyMappingDict && fresh(keyMappingDict[actionName])
        && keyMappingDict == old(keyMappingDict)[actionName := keyMappingDict[actionName]]
        && Bindings() == old(Bindings())[actionName := defaultKey]
    {
      if actionName == [] {
        return;
      }
      if actionName in keyMappingDict {
        if overwrite {
          var _ := UpdateKeyInternal(actionName, defaultKey);
        }
        return;
      }
      var newMapping := new KeyMapping(actionName, defaultKey);
      keyMappingDict := keyMappingDict[actionName := newMapping];
    }

    /** Drops an action's binding; false, with nothing changed, when it has none. */
    method RemoveKeyMapping(actionName: string) returns (removed: bool)
      requires Valid()
      modifies this
      ensures Valid()
      ensures removed <==> actionName in old(keyMappingDict)
      ensures keyMappingDict == old(keyMappingDict) - {actionName}
      ensures Bindings() == old(Bindings()) - {actionName}
    {
      if actionName !in keyMappingDict {
        return false;
      }
      keyMappingDict := keyMappingDict - {actionName};
      return true;
    }

    /** The key bound to an action, or None when the action is unbound. */
    function GetKey(actionName: string): (r: Option<KeyCode>)
      reads this, keyMappingDict.Values
      ensures r.Some? <==> actionName in Bindings()
      ensures r.Some? ==> r.value == Bindings()[actionName]
    {
      if actionName in keyMappingDict then Some(keyMappingDict[actionName].keyCode) else None
    }

    /**
     * Rebinds an action unless it is unbound or the key is already bound to
     * any action, itself included. A successful rebind keeps keys unshared.
     */
    method SetKey(actionName: string, newKeyCode: KeyCode) returns (ok: bool)
      requires Valid()
      modifies if actionName in keyMappingDict then {keyMappingDict[actionName]} else {}
      ensures Valid()
      ensures ok <==> actionName in old(Bindings()) && newKeyCode !in old(Bindings()).Values
      ensures Bindings() == if ok then old(Bindings())[actionName := newKeyCode] else old(Bindings())
      ensures NoSharedKeys(old(Bindings())) ==> NoSharedKeys(Bindings())
    {
      if actionName !in keyMappingDict {
        return false;
      }
      var occupied, conflictAction := IsKeyOccupied(newKeyCode);
      if occupied {
        return false;
      }
      ok := UpdateKeyInternal(actionName, newKeyCode);
    }

    /**
     * Clears the table and fills in the default actions. The names are the
     * five defaults; each key is whatever its default object now holds.
     */
    method ResetToDefaults()
      requires Valid()
      modifies this
      ensures Valid()
      ensures keyMappingDict.Keys == DefaultBindings.Keys
      ensures forall i | 0 <= i < 5 :: keyMappingDict[DefaultActions[i]] == defaultMappings[i]
      ensures forall i | 0 <= i < 5 :: Bindings()[DefaultActions[i]] == defaultMappings[i].keyCode
    {
      keyMappingDict := map[];
      EnsureDefaultMappings();
    }

    /** Writes the new key into the stored mapping object. Both callers have checked the name. */
    method UpdateKeyInternal(actionName: string, newKeyCode: KeyCode) returns (updated: bool)
      requires Valid() && actionName in keyMappingDict
      modifies keyMappingDict[actionName]
      ensures Valid() && updated
      ensures keyMappingDict[actionName].keyCode == newKeyCode
      ensures Bindings() == old(Bindings())[actionName := newKeyCode]
    {
      keyMappingDict[actionName].keyCode := newKeyCode;
      return true;
    }

    /** Whether some action is bound to key, and which one. */
    method IsKeyOccupied(key: KeyCode) returns (occupied: bool, conflictAction: Option<string>)
      requires Valid()
      ensures occupied <==> key in Bindings().Values
      ensures occupied ==> conflictAction.Some? && conflictAction.value in Bindings()
                           && Bindings()[conflictAction.value] == key
      ensures !occupied ==> conflictAction.None?
    {
      var remaining := keyMappingDict.Keys;
      while remaining != {}
        invariant remaining <= keyMappingDict.Keys
        invariant forall name | name in keyMappingDict && name !in remaining :: keyMappingDict[name].keyCode != key
        decreases remaining
      {
        var name :| name in remaining;
        if keyMappingDict[name].keyCode == key {
          assert Bindings()[name] == key;
          return true, Some(name);
        }
        remaining := remaining - {name};
      }
      return false, None;
    }

    /** Adds each default mapping object whose action name is not yet bound. */
    method EnsureDefaultMappings()
      requires Valid()
      modifies this
      ensures Valid()
      ensures keyMappingDict == WithDefaults(old(keyMappingDict), defaultMappings)
      ensures keyMappingDict.Keys == old(keyMappingDict).Keys + DefaultBindings.Keys
      ensures forall name | name in old(keyMappingDict) :: keyMappingDict[name] == old(keyMappingDict)[name]
      ensures forall i | 0 <= i < 5 && DefaultActions[i] !in old(keyMappingDict) ::
        keyMappingDict[DefaultActions[i]] == defaultMappings[i]
    {
      ghost var table := keyMappingDict;
      var i := 0;
      while i < 5
        invariant 0 <= i <= 5
        invariant keyMappingDict == WithDefaults(table, defaultMappings[..i])
      {
        assert defaultMappings[..i + 1][..i] == defaultMappings[..i];
        var defaultMapping := defaultMappings[i];
        if defaultMapping.actionName !in keyMappingDict {
          keyMappingDict := keyMappingDict[defaultMapping.actionName := defaultMapping];
        }
        i := i + 1;
      }
      assert defaultMappings[..5] == defaultMappings;
      DefaultsCoverDefaultActions(table);
    }

    /** What the fill-in loop leaves, in terms of the five default actions. */
    lemma DefaultsCoverDefaultActions(table: map<string, KeyMapping>)
      requires DefaultsInPlace()
      requires forall name | name in table :: table[name].actionName == name
      ensures forall name | name in WithDefaults(table, defaultMappings) :: WithDefaults(table, defaultMappings)[name].actionName == name
      ensures WithDefaults(table, defaultMappings).Keys == table.Keys + DefaultBindings.Keys
      ensures forall name | name in table :: WithDefaults(table, defaultMappings)[name] == table[name]
      ensures forall i | 0 <= i < 5 && DefaultActions[i] !in table ::
        WithDefaults(table, defaultMappings)[DefaultActions[i]] == defaultMappings[i]
    {
      WithDefaultsNamed(table, defaultMappings);
      WithDefaultsKeys(table, defaultMappings);
      forall name
        ensures name in ActionNames(defaultMappings) <==> name in DefaultBindings
      {
        ActionNamesMembers(defaultMappings, name);
        if name in DefaultBindings {
          assert defaultMappings[DefaultActionIndex(name)].actionName == name;
        }
      }
      forall i | 0 <= i < 5 && DefaultActions[i] !in table
        ensures WithDefaults(table, defaultMappings)[DefaultActions[i]] == defaultMappings[i]
      {
        WithDefaultsStores(table, defaultMappings, i);
      }
    }

    /** Whether the action is bound to a key that is held down; an unbound action never is. */
    predicate KeyState(actionName: string, pressed: KeyCode -> bool): (held: bool)
      reads this, keyMappingDict.Values
      ensures held <==> actionName in Bindings() && pressed(Bindings()[actionName])
      ensures held <==> GetKey(actionName).Some? && pressed(GetKey(actionName).value)
    {
      actionName in keyMappingDict && pressed(keyMappingDict[actionName].keyCode)
    }

    /**
     * One input axis from two actions: +1 when only the positive action's key
     * is held, -1 when only the negative one's, 0 when both or neither.
     */
    function GetAxis(negativeAction: string, positiveAction: string, pressed: KeyCode -> bool): (value: int)
      reads this, keyMappingDict.Values
      ensures value == 1 <==> KeyState(positiveAction, pressed) && !KeyState(negativeAction, pressed)
      ensures value == -1 <==> !KeyState(positiveAction, pressed) && KeyState(negativeAction, pressed)
      ensures value == 0 <==> KeyState(positiveAction, pressed) == KeyState(negativeAction, pressed)
    {
      (if KeyState(positiveAction, pressed) then 1 else 0) - (if KeyState(negativeAction, pressed) then 1 else 0)
    }
  }

  /**
   * Rebinding a default action and then resetting leaves the new key in
   * place: the reset reinstates the shared default object, which the rebind
   * wrote into.
   */
  method ResetKeepsRebindScenario() {
    var settings := new KeySettingManager();
    var keyQ: KeyCode := 113;
    assert keyQ !in settings.Bindings().Values;
    assert DefaultActions[1] == "Left";
    var ok := settings.SetKey("Left", keyQ);
    assert ok;
    settings.ResetToDefaults();
    assert DefaultActions[1] == "Left";
    var key := settings.GetKey("Left");
    assert key == Some(keyQ);
    assert key != Some(DefaultBindings["Left"]);
  }
}
