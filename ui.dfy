/** The stateful part of the user interface: dropping a module into the active
    list (registry update, cloning, order notification, enabling), reordering,
    and the control-panel visibility switched by focus. The page itself is
    abstracted: the active list is given as the names its items carry, the
    control panels as a map from name to their `show` flag. */
module ModVUi {
  import opened Names
  import opened Naming

  datatype Option<T> = None | Some(value: T)

  datatype Result<T, E> = Ok(value: T) | Err(error: E)

  datatype Outcome<E> = Pass | Fail(error: E)

  /** The settings snapshot a control hands out (`getSettings()`). */
  type Settings = map<string, string>

  /** A control of a module; `kind` stands for its constructor. A control is
      never changed after construction, so both fields are constants. */
  class Control {
    const kind: string
    const settings: Settings

    constructor (kind: string, settings: Settings)
      ensures this.kind == kind && this.settings == settings
    {
      this.kind := kind;
      this.settings := settings;
    }
  }

  /** The parts of a module the drop handler reads or writes: `info.name`,
      `info.safeName`, `info.disabled`, `info.controls` (absent when the module
      has no `controls` entry) and whether it has an `init` hook. */
  datatype Module = Module(
    name: string,
    safeName: string,
    disabled: bool,
    controls: Option<seq<Control>>,
    hasInit: bool)

  /** The arguments of one `setModOrder(name, index)` call. */
  datatype OrderCall = OrderCall(name: string, index: int)

  datatype DropError =
    | UnknownModule(key: string)   // no module registered under the converted name
    | InitFailed(name: string)     // the clone's init hook threw

  datatype FocusError =
    | OutsideActiveItem            // the focused element is not inside an active item
    | NoPanel(name: string)        // no control panel carries the item's name

  /** Every control of `copies` was built from the corresponding one of
      `originals`: same kind, same settings, same order. */
  predicate SameSettings(copies: seq<Control>, originals: seq<Control>)
  {
    && |copies| == |originals|
    && forall i :: 0 <= i < |copies| ==>
         copies[i].kind == originals[i].kind && copies[i].settings == originals[i].settings
  }

  /** Rebuilds a control list one control at a time from each original's
      settings, so that the copy shares no control with the original. */
  method RebuildControls(originals: seq<Control>) returns (copies: seq<Control>)
    ensures SameSettings(copies, originals)
    ensures forall i :: 0 <= i < |copies| ==> fresh(copies[i])
    ensures forall i, j :: 0 <= i < |copies| && 0 <= j < |originals| ==> copies[i] != originals[j]
  {
    copies := [];
    for n := 0 to |originals|
      invariant SameSettings(copies, originals[..n])
      invariant forall i :: 0 <= i < |copies| ==> fresh(copies[i])
    {
      var control := new Control(originals[n].kind, originals[n].settings);
      copies := copies + [control];
    }
    assert originals[..|originals|] == originals;
  }

  /** The names whose control panel is shown. */
  function Shown(panels: map<string, bool>): set<string>
  {
    set name | name in panels && panels[name]
  }

  class ModV {
    var registeredMods: map<string, Module>
    var modOrderCalls: seq<OrderCall>
    var panels: map<string, bool>

    constructor (mods: map<string, Module>, panels: map<string, bool>)
      ensures registeredMods == mods && this.panels == panels && modOrderCalls == []
    {
      registeredMods := mods;
      this.panels := panels;
      modOrderCalls := [];
    }

    /** The drop handler. `draggedName` is the name the dragged gallery item
        carries, `activeNames` the names of the items already in the active
        list, `newIndex` the drop position and `initSucceeds` whether the
        clone's `init` hook returns normally. On success the result is the
        registry key of the module that was placed. */
    method OnAdd(draggedName: string, activeNames: seq<string>, newIndex: int, initSucceeds: bool)
      returns (r: Result<string, DropError>)
      modifies this`registeredMods, this`modOrderCalls
      // no module under the converted name: nothing changes
      ensures ToDisplayName(draggedName) !in old(registeredMods) ==>
        && r == Err(UnknownModule(ToDisplayName(draggedName)))
        && registeredMods == old(registeredMods)
        && modOrderCalls == old(modOrderCalls)
      // no duplicate: the registered module itself is placed and enabled
      ensures (ToDisplayName(draggedName) in old(registeredMods)
               && DupeCount(activeNames, DupeBase(draggedName)) == 0) ==>
        var key := ToDisplayName(draggedName);
        && r == Ok(key)
        && registeredMods == old(registeredMods)[key := old(registeredMods)[key].(disabled := false)]
        && modOrderCalls == old(modOrderCalls) + [OrderCall(key, newIndex)]
      // duplicates and a failing init hook: nothing changes
      ensures (ToDisplayName(draggedName) in old(registeredMods)
               && DupeCount(activeNames, DupeBase(draggedName)) > 0
               && old(registeredMods)[ToDisplayName(draggedName)].hasInit && !initSucceeds) ==>
        var name := DisplayName(draggedName, DupeCount(activeNames, DupeBase(draggedName)));
        && r == Err(InitFailed(name))
        && registeredMods == old(registeredMods)
        && modOrderCalls == old(modOrderCalls)
      // duplicates: a renamed, enabled clone with rebuilt controls is
      // registered under the new display name; no other entry changes
      ensures (ToDisplayName(draggedName) in old(registeredMods)
               && DupeCount(activeNames, DupeBase(draggedName)) > 0
               && (!old(registeredMods)[ToDisplayName(draggedName)].hasInit || initSucceeds)) ==>
        var original := old(registeredMods)[ToDisplayName(draggedName)];
        var name := DisplayName(draggedName, DupeCount(activeNames, DupeBase(draggedName)));
        && r == Ok(name)
        && registeredMods.Keys == old(registeredMods).Keys + {name}
        && (forall k :: k in old(registeredMods) && k != name ==> registeredMods[k] == old(registeredMods)[k])
        && registeredMods[name].name == name
        && registeredMods[name].safeName == ToSafeName(name)
        && !registeredMods[name].disabled
        && registeredMods[name].hasInit == original.hasInit
        && registeredMods[name].controls.Some? == original.controls.Some?
        && (original.controls.Some? ==>
              && SameSettings(registeredMods[name].controls.value, original.controls.value)
              && forall i :: 0 <= i < |registeredMods[name].controls.value| ==>
                   fresh(registeredMods[name].controls.value[i]))
        && modOrderCalls == old(modOrderCalls) + [OrderCall(name, newIndex)]
      // whatever happens, a placed module is enabled
      ensures r.Ok? ==> r.value in registeredMods && !registeredMods[r.value].disabled
    {
      var key := ToDisplayName(draggedName);
      if key !in registeredMods {
        return Err(UnknownModule(key));
      }
      var placed := registeredMods[key];
      var dupes := DupeCount(activeNames, DupeBase(draggedName));
      var name := DisplayName(draggedName, dupes);
      var safeName := ToSafeName(name);
      if dupes > 0 {
        // the clone starts as a copy of the registered module's record
        var original := placed;
        if original.controls.Some? {
          var copies := RebuildControls(original.controls.value);
          placed := placed.(controls := Some(copies));
        }
        if placed.hasInit && !initSucceeds {
          return Err(InitFailed(name));
        }
        placed := placed.(name := name, safeName := safeName);
        registeredMods := registeredMods[name := placed];
      }
      modOrderCalls := modOrderCalls + [OrderCall(name, newIndex)];
      registeredMods := registeredMods[name := placed.(disabled := false)];
      r := Ok(name);
    }

    /** The reorder handler: the item's safe name is converted back to a display
        name and passed on with the new index. */
    method OnEnd(itemName: string, newIndex: int)
      modifies this`modOrderCalls
      ensures modOrderCalls == old(modOrderCalls) + [OrderCall(ToDisplayName(itemName), newIndex)]
    {
      modOrderCalls := modOrderCalls + [OrderCall(ToDisplayName(itemName), newIndex)];
    }

    /** Removes `show` from every control panel. */
    method ClearPanels()
      modifies this`panels
      ensures panels.Keys == old(panels).Keys
      ensures Shown(panels) == {}
    {
      var pending := panels.Keys;
      while pending != {}
        invariant pending <= panels.Keys
        invariant panels.Keys == old(panels).Keys
        invariant forall name :: name in panels && name !in pending ==> !panels[name]
        decreases pending
      {
        var name :| name in pending;
        panels := panels[name := false];
        pending := pending - {name};
      }
    }

    /** The focus handler. `focusedItem` is the name carried by the active item
        that encloses the focused element, if there is one. The panels are
        cleared before the item's panel is looked up, so focusing an item
        without a panel leaves every panel hidden. */
    method ActiveElementHandler(focusedItem: Option<string>) returns (r: Outcome<FocusError>)
      modifies this`panels
      ensures focusedItem.None? ==> r == Fail(OutsideActiveItem) && panels == old(panels)
      ensures focusedItem.Some? ==> panels.Keys == old(panels).Keys
      ensures focusedItem.Some? && focusedItem.value in old(panels) ==>
        r == Pass && Shown(panels) == {focusedItem.value}
      ensures focusedItem.Some? && focusedItem.value !in old(panels) ==>
        r == Fail(NoPanel(focusedItem.value)) && Shown(panels) == {}
    {
      if focusedItem.None? {
        return Fail(OutsideActiveItem);
      }
      var name := focusedItem.value;
      var found := name in panels;
      ClearPanels();
      if !found {
        return Fail(NoPanel(name));
      }
      panels := panels[name := true];
      r := Pass;
    }

    /** The blur handler only logs: no state changes. */
    method ClearActiveElement()
      ensures panels == old(panels)
      ensures registeredMods == old(registeredMods) && modOrderCalls == old(modOrderCalls)
    {
    }
  }

  /** Focusing one item and then another leaves only the second one's panel shown. */
  method FocusTwice(ui: ModV, first: string, second: string)
    requires first in ui.panels && second in ui.panels
    modifies ui`panels
    ensures Shown(ui.panels) == {second}
    ensures ui.panels.Keys == old(ui.panels).Keys
    ensures ui.registeredMods == old(ui.registeredMods) && ui.modOrderCalls == old(ui.modOrderCalls)
  {
    var r1 := ui.ActiveElementHandler(Some(first));
    var r2 := ui.ActiveElementHandler(Some(second));
  }
}
