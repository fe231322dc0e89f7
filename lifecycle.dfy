/** A module element's lifecycle: the constructor checks and registration, renderer
    resolution with fallback, the init-once connect, key-checked state writes, event
    binding, and the teardown order on disconnect. */
module Lifecycle {
  import opened Wrappers
  import opened JsStrings
  import opened JsValues
  import opened ReactiveStore
  import opened View
  import opened Control
  import opened Manager

  /** The members a ModuleView instance offers to `this.view?.[prop]`: its methods and
      its two own fields (its inherited members never get that far, see below). */
  const ViewMembers: set<string> :=
    {"bindRenderToElement", "registerRender", "removeRenderForKey", "unregisterRender",
     "renderTextContent", "renderItem", "unbindAll", "state", "renderMap"}

  /** The members the proxy target `{}` inherits from Object.prototype; each is truthy,
      so `target[prop]` answers these names before the view is asked. */
  const ObjectPrototypeMembers: set<string> :=
    {"constructor", "hasOwnProperty", "isPrototypeOf", "propertyIsEnumerable", "toLocaleString",
     "toString", "valueOf", "__proto__", "__defineGetter__", "__defineSetter__",
     "__lookupGetter__", "__lookupSetter__"}

  /** What `this.render[prop]` yields. */
  datatype RendererRef =
    | OwnRenderer(fn: Value)              // a renderer assigned to the module
    | InheritedMember(member: string)     // what the target inherits from Object.prototype
    | ViewMember(member: string)          // the view's member of that name
    | DefaultRenderer(rendererName: string) // `#defaultRenderer` bound to the name

  /** One step of cleanup, in the order it happens. */
  datatype Step = ViewUnbindAll | ControlCleanupEvents | StateDestroy

  /** What the default renderer does: `element.textContent = value ?? ''`. */
  function DefaultRender(value: Value, element: nat): (r: Render)
    ensures r.SetText? && r.element == element
    ensures IsNullish(value) ==> r.text == Str("")
    ensures !IsNullish(value) ==> r.text == value
  {
    SetText(element, TextOf(value))
  }

  /** The module's fallback renderer and a view binding without a renderer show the
      same text for every value. */
  lemma DefaultRenderAgreesWithView(value: Value, element: nat, key: string)
    ensures DefaultRender(value, element) == BoundRender(element, None, key, value)
  {
  }

  /** The module name: `${config.name}-<suffix>`, reading `name` off the config. */
  function ModuleName(config: Value, suffix: string): (r: Result<string>)
    ensures r.Err? <==> IsNullish(config)
    ensures r.Err? ==> r.error == TypeError
    ensures config.Obj? && "name" in config.fields && config.fields["name"].Str? ==>
      r == Ok(config.fields["name"].s + "-" + suffix)
  {
    match ReadProp(config, "name")
    case Err(e) => Err(e)
    case Ok(v) => Ok(Stringify(v) + "-" + suffix)
  }

  /** `this.state = new ModuleState(initialState || {})`: falsy initial states start empty. */
  function InitialStore(initialState: Value): (v: Value)
    ensures !Truthy(initialState) ==> v == Obj(map[])
    ensures Truthy(initialState) ==> v == initialState
  {
    if Truthy(initialState) then initialState else Obj(map[])
  }

  /** The store always starts from a truthy value, choosing it twice is choosing it once,
      and it is object-like exactly when the given state is falsy or object-like: a
      truthy primitive is the only initial state that reaches the store as it is. */
  lemma InitialStoreChoice(initialState: Value)
    ensures Truthy(InitialStore(initialState))
    ensures InitialStore(InitialStore(initialState)) == InitialStore(initialState)
    ensures IsObjectLike(InitialStore(initialState)) <==> !Truthy(initialState) || IsObjectLike(initialState)
  {
  }

  class Module {
    /** The registered name. */
    const name: string
    /** The renderers assigned through `render`, the target of the renderer proxy. */
    var renderers: map<string, Value>
    var initialized: bool
    var state: Option<ModuleState>
    var control: Option<ModuleControl>
    var view: Option<ModuleView>

    /** The component objects the module holds. */
    function Parts(): set<object>
      reads this
    {
      (if view.Some? then {view.value, view.value.state} else {})
      + (if control.Some? then {control.value} else {})
      + (if state.Some? then {state.value} else {})
    }

    /** Control and view exist exactly once initialized, share one store, and the store
        field, until cleanup clears it, is that store; assigned renderers are functions. */
    ghost predicate Valid()
      reads this, Parts()
    {
      (initialized <==> view.Some?) && (initialized <==> control.Some?)
      && (state.Some? ==> initialized && state.value == view.value.state)
      && (view.Some? ==> view.value.Valid() && control.value.Valid() && control.value.state == view.value.state)
      && (forall p :: p in renderers ==> renderers[p].Func?)
    }

    constructor (n: string)
      ensures Valid() && name == n && !initialized
      ensures renderers == map[] && state.None? && control.None? && view.None?
    {
      name := n;
      renderers := map[];
      initialized := false;
      state := None;
      control := None;
      view := None;
    }

    /** The constructor: Module itself and a subclass without initializeModule are
        refused, the name is composed from the config, and the module registers under
        it (a taken name makes the constructor throw). */
    static method Create(isModuleItself: bool, hasInitializeModule: bool, config: Value, suffix: string,
                         manager: ModuleManager) returns (r: Result<Module>)
      modifies manager
      ensures manager.renderers == old(manager.renderers) && manager.handlers == old(manager.handlers)
      ensures isModuleItself ==> r == Err(AbstractModule)
      ensures !isModuleItself && !hasInitializeModule ==> r == Err(MissingInitializeModule)
      ensures !isModuleItself && hasInitializeModule && IsNullish(config) ==> r == Err(TypeError)
      ensures r.Err? ==> manager.modules == old(manager.modules)
      ensures r.Ok? ==>
        !isModuleItself && hasInitializeModule && ModuleName(config, suffix) == Ok(r.value.name)
        && r.value.name !in old(manager.modules)
        && manager.modules == old(manager.modules)[r.value.name := r.value]
        && fresh(r.value) && r.value.Valid() && !r.value.initialized && r.value.renderers == map[]
      ensures !isModuleItself && hasInitializeModule && ModuleName(config, suffix).Ok? ==>
        (r.Err? <==> ModuleName(config, suffix).value in old(manager.modules))
    {
      if isModuleItself {
        return Err(AbstractModule);
      }
      if !hasInitializeModule {
        return Err(MissingInitializeModule);
      }
      var n := ModuleName(config, suffix);
      if n.Err? {
        return Err(n.error);
      }
      var m := new Module(n.value);
      var o := manager.RegisterModule(n.value, m);
      if o.Fail? {
        return Err(o.error);
      }
      r := Ok(m);
    }

    /** The renderer proxy's get: an assigned renderer, else what the target inherits,
        else the view's member, else the default renderer for the name. */
    function Renderer(prop: string): (r: RendererRef)
      reads this
      ensures prop in renderers && renderers[prop].Func? ==> r == OwnRenderer(renderers[prop])
      ensures prop !in renderers && prop in ObjectPrototypeMembers ==> r == InheritedMember(prop)
      ensures prop !in renderers && prop !in ObjectPrototypeMembers && view.Some? && prop in ViewMembers ==>
        r == ViewMember(prop)
      ensures prop !in renderers && prop !in ObjectPrototypeMembers && !(view.Some? && prop in ViewMembers) ==>
        r == DefaultRenderer(prop)
    {
      if prop in renderers && Truthy(renderers[prop]) then OwnRenderer(renderers[prop])
      else if prop in ObjectPrototypeMembers then InheritedMember(prop)
      else if view.Some? && prop in ViewMembers then ViewMember(prop)
      else DefaultRenderer(prop)
    }

    /** The renderer proxy's set: a function is stored; anything else makes the trap
        return false, which throws in module code, and the table stays as it was. */
    method SetRenderer(prop: string, value: Value) returns (o: Outcome)
      requires Valid()
      modifies this
      ensures Valid()
      ensures initialized == old(initialized) && state == old(state) && control == old(control) && view == old(view)
      ensures o.Fail? <==> !value.Func?
      ensures o.Fail? ==> o.error == TypeError && renderers == old(renderers)
      ensures o.Pass? ==> renderers == old(renderers)[prop := value] && Renderer(prop) == OwnRenderer(value)
    {
      if !value.Func? {
        return Fail(TypeError);
      }
      renderers := renderers[prop := value];
      o := Pass;
    }

    /** connectedCallback: a second call only warns; the first builds the store (an
        error there is caught and logged, leaving the module uninitialized), then the
        control and the view over it, and only then raises the flag. */
    method ConnectedCallback(initialState: Value) returns (logged: Outcome)
      requires Valid()
      modifies this
      ensures Valid()
      ensures renderers == old(renderers)
      ensures old(initialized) ==>
        logged == Pass && state == old(state) && control == old(control) && view == old(view) && initialized
      ensures !old(initialized) && !IsObjectLike(InitialStore(initialState)) ==>
        logged == Fail(InvalidInitialState) && !initialized && state == old(state) && control == old(control) && view == old(view)
      ensures !old(initialized) && IsObjectLike(InitialStore(initialState)) ==>
        logged == Pass && initialized && state.Some? && fresh(state.value)
        && fresh(control.value) && fresh(view.value)
        && state.value.listeners == map[] && view.value.renderMap == map[] && control.value.handlers == map[]
        && (InitialStore(initialState).Obj? ==> state.value.store == InitialStore(initialState).fields)
    {
      if initialized {
        return Pass;
      }
      var s := ModuleState.Create(InitialStore(initialState));
      if s.Err? {
        return Fail(s.error);
      }
      var c := ModuleControl.Create(Some(s.value));
      var v := new ModuleView(s.value);
      state := Some(s.value);
      control := Some(c.value);
      view := Some(v);
      initialized := true;
      logged := Pass;
    }

    /** getState: the read-only view of the store; there is none before connect or
        after cleanup. */
    function GetState(): (r: Result<map<string, Value>>)
      reads this, Parts()
      ensures r.Err? <==> state.None?
      ensures r.Err? ==> r.error == TypeError
      ensures r.Ok? ==> r.value == state.value.store
    {
      if state.None? then Err(TypeError) else Ok(state.value.store)
    }

    /** setState: a key that is not a string throws before the store is touched; without
        a store nothing happens; otherwise the store's setState runs and the renders its
        notifications trigger are returned. */
    method SetState(key: Value, value: Value) returns (r: Result<seq<Render>>)
      requires Valid()
      modifies if state.Some? then {state.value} else {}
      ensures Valid()
      ensures !key.Str? ==> r == Err(InvalidKey)
      ensures (!key.Str? || state.None?) ==> (state.Some? ==> unchanged(state.value))
      ensures key.Str? && state.None? ==> r == Ok([])
      ensures key.Str? && state.Some? ==>
        var s := state.value;
        s.listeners == old(s.listeners)
        && (r.Err? <==> Contains(key.s, ObjectKeyMarker))
        && (r.Err? ==> r == Err(TypeError) && s.store == old(s.store))
        && (r.Ok? ==> s.store == old(s.store)[key.s := value]
                      && r.value == view.value.Effects(s.Notifications(key.s, value)))
    {
      if !key.Str? {
        return Err(InvalidKey);
      }
      if state.None? {
        return Ok([]);
      }
      var res := state.value.SetState(key.s, value);
      if res.Err? {
        return Err(res.error);
      }
      r := Ok(view.value.Effects(res.value));
    }

    /** bindState: the view binds a text render for the key to the element; without a
        view the call throws. */
    method BindState(key: string, element: nat) returns (o: Outcome)
      requires Valid()
      modifies if view.Some? then {view.value, view.value.state} else {}
      ensures Valid()
      ensures o.Fail? <==> view.None?
      ensures o.Fail? ==> o.error == TypeError
      ensures o.Pass? ==> forall v ::
        view.value.RelayRenders(key, v) == old(view.value.RelayRenders(key, v)) + [SetText(element, TextOf(v))]
      ensures view == old(view) && control == old(control) && state == old(state)
      ensures o.Pass? ==> view.value.renderMap == old(view.value.renderMap)[key :=
        (if key in old(view.value.renderMap) then old(view.value.renderMap)[key] else []) + [Bound(old(view.value.nextSerial), element, None)]]
    {
      if view.None? {
        return Fail(TypeError);
      }
      view.value.BindRenderToElement(key, element, None);
      o := Pass;
    }

    /** bindEvent: a target that is not an element and a handler that is not a function
        are refused here; the rest is bindElementEvent's. */
    method BindEvent(element: Option<nat>, eventName: Value, handler: Value) returns (o: Outcome)
      requires Valid()
      modifies if control.Some? then {control.value} else {}
      ensures Valid()
      ensures view == old(view) && control == old(control) && state == old(state)
      ensures element.None? ==> o == Fail(TypeMismatch)
      ensures element.Some? && !handler.Func? ==> o == Fail(NotCallable)
      ensures element.Some? && handler.Func? && control.None? ==> o == Fail(TypeError)
      ensures element.Some? && handler.Func? && control.Some? ==>
        (o.Pass? <==> ValidateEventName(eventName).Pass? && !old(control.value.IsBound(element.value, eventName.s)))
      ensures o.Fail? && control.Some? ==>
        control.value.handlers == old(control.value.handlers) && control.value.attached == old(control.value.attached)
      ensures o.Pass? ==>
        control.Some? && element.Some? && eventName.Str? && control.value.IsBound(element.value, eventName.s)
        && !old(control.value.IsBound(element.value, eventName.s))
        && control.value.handlers ==
           Bind(old(control.value.handlers), Binding(old(control.value.nextSerial), element.value, eventName.s, handler.fid))
    {
      if element.None? {
        return Fail(TypeMismatch);
      }
      if !handler.Func? {
        return Fail(NotCallable);
      }
      if control.None? {
        return Fail(TypeError);
      }
      o := control.value.BindElementEvent(element, eventName, handler);
    }

    /** cleanup: the view's bindings, then the control's listeners, then the store's
        listeners go, each step skipped when its component is absent, and the store
        field is cleared; a second cleanup throws at the control step. */
    method Cleanup() returns (o: Outcome, steps: seq<Step>)
      requires Valid()
      modifies this, Parts()
      ensures Valid()
      ensures renderers == old(renderers) && initialized == old(initialized)
      ensures view == old(view) && control == old(control)
      ensures o.Fail? <==> old(control.Some? && !control.value.iterable)
      ensures o.Fail? ==>
        o.error == TypeError && steps == [ViewUnbindAll, ControlCleanupEvents] && state == old(state)
      ensures o.Pass? ==>
        steps == (if view.Some? then [ViewUnbindAll] else []) + (if control.Some? then [ControlCleanupEvents] else [])
                 + (if old(state).Some? then [StateDestroy] else [])
      ensures o.Pass? ==> state.None?
      ensures o.Pass? && old(state).Some? ==> old(state).value.listeners == map[]
      ensures view.Some? ==> view.value.renderMap == map[]
      ensures o.Pass? && control.Some? ==> control.value.attached == {} && control.value.bus == map[]
    {
      steps := [];
      if view.Some? {
        view.value.UnbindAll();
        steps := steps + [ViewUnbindAll];
      }
      if control.Some? {
        var c := control.value.CleanupEvents();
        steps := steps + [ControlCleanupEvents];
        if c.Fail? {
          return c, steps;
        }
      }
      if state.Some? {
        state.value.Destroy();
        steps := steps + [StateDestroy];
        state := None;
      }
      o := Pass;
    }

    /** disconnectedCallback: cleanup, then the name leaves the registry; when cleanup
        throws the name stays registered. */
    method DisconnectedCallback(manager: ModuleManager) returns (o: Outcome)
      requires Valid()
      modifies this, Parts(), manager
      ensures Valid()
      ensures manager.renderers == old(manager.renderers) && manager.handlers == old(manager.handlers)
      ensures old(control.Some? && !control.value.iterable) ==>
        o == Fail(TypeError) && manager.modules == old(manager.modules)
      ensures !old(control.Some? && !control.value.iterable) ==>
        manager.modules == old(manager.modules) - {name}
        && (o.Fail? <==> name !in old(manager.modules))
      ensures !old(control.Some? && !control.value.iterable) ==> state.None?
    {
      var c, steps := Cleanup();
      if c.Fail? {
        return c;
      }
      o := manager.UnregisterModule(name);
    }
  }
}
