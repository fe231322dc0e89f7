/** The process-wide registry: modules by name, global renderers and handlers by name,
    the prop split of createModuleElement, and the accessors the injection helpers
    install on a class prototype. */
module Manager {
  import opened Wrappers
  import opened JsValues

  /** One own enumerable property of a props object, in `Object.keys` order. */
  datatype Prop = Prop(key: string, value: Value)

  /** `element.setAttribute('data-<key>', value)`. */
  datatype DataAttr = DataAttr(name: string, value: Value)

  /** Property keys are unique. */
  predicate UniqueKeys(props: seq<Prop>) {
    forall i, j :: 0 <= i < j < |props| ==> props[i].key != props[j].key
  }

  /** The props that are functions, by key. */
  function FunctionProps(props: seq<Prop>): (m: map<string, Value>)
    ensures forall k :: k in m ==> m[k].Func?
    ensures forall i :: 0 <= i < |props| && props[i].value.Func? && UniqueKeys(props) ==>
      props[i].key in m && m[props[i].key] == props[i].value
    ensures forall k :: k in m ==> exists i :: 0 <= i < |props| && props[i].key == k && props[i].value.Func?
  {
    if props == [] then map[]
    else
      var init := props[..|props| - 1];
      var last := props[|props| - 1];
      var m := FunctionProps(init);
      assert forall i :: 0 <= i < |init| ==> init[i] == props[i];
      if last.value.Func? then m[last.key := last.value] else m
  }

  /** The data attributes of the props that are not functions, in key order. */
  function DataAttrs(props: seq<Prop>): (attrs: seq<DataAttr>)
    ensures |attrs| <= |props|
    ensures forall a :: a in attrs ==> !a.value.Func?
  {
    if props == [] then []
    else
      var init := DataAttrs(props[..|props| - 1]);
      var last := props[|props| - 1];
      if last.value.Func? then init else init + [DataAttr("data-" + last.key, last.value)]
  }

  /** How many props are functions. */
  function CountFunctions(props: seq<Prop>): (n: nat)
    ensures n <= |props|
  {
    if props == [] then 0
    else CountFunctions(props[..|props| - 1]) + (if props[|props| - 1].value.Func? then 1 else 0)
  }

  /** Each prop goes exactly one way: the function props and the data attributes
      together are as many as the props, and the function props are keyed once each. */
  lemma {:induction false} PropsSplitExactly(props: seq<Prop>)
    requires UniqueKeys(props)
    ensures |FunctionProps(props)| == CountFunctions(props)
    ensures |DataAttrs(props)| + CountFunctions(props) == |props|
  {
    if props != [] {
      var init := props[..|props| - 1];
      var last := props[|props| - 1];
      assert UniqueKeys(init);
      PropsSplitExactly(init);
      if last.value.Func? {
        var m := FunctionProps(init);
        forall k | k in m
          ensures k != last.key
        {
          var i :| 0 <= i < |init| && init[i].key == k && init[i].value.Func?;
          assert init[i] == props[i];
        }
        assert last.key !in m;
      }
    }
  }

  /** `getRenderer` / `getHandler`: `get(name) || null`. */
  function Lookup(table: map<string, Value>, name: string): (v: Value)
    ensures name in table && Truthy(table[name]) ==> v == table[name]
    ensures !(name in table && Truthy(table[name])) ==> v == Null
  {
    if name in table && Truthy(table[name]) then table[name] else Null
  }

  /** A lookup never yields a falsy value other than null; a truthy entry just stored is
      found, and storing under one name leaves the lookups of every other name alone. */
  lemma LookupAfterStore(table: map<string, Value>, name: string, fn: Value, other: string)
    ensures Lookup(table, name) == Null || Truthy(Lookup(table, name))
    ensures Truthy(fn) ==> Lookup(table[name := fn], name) == fn
    ensures other != name ==> Lookup(table[name := fn], other) == Lookup(table, other)
  {
  }

  /** The checks of injectGlobalRenderer / injectGlobalHandler: a class (a function)
      and an array of strings (an empty one by default); the names come back in order. */
  function InjectNames(classRef: Value, names: Value): (r: Result<seq<string>>)
    ensures r.Err? <==> !classRef.Func? || !(names == Undefined || (names.Arr? && AllStrings(names.elems)))
    ensures r.Err? ==> r.error == InvalidArgument
    ensures r.Ok? && names == Undefined ==> r.value == []
    ensures r.Ok? && names.Arr? ==>
      |r.value| == |names.elems| && forall i :: 0 <= i < |r.value| ==> names.elems[i] == Str(r.value[i])
  {
    if !classRef.Func? then Err(InvalidArgument)
    else if names == Undefined then Ok([])
    else if names.Arr? && AllStrings(names.elems) then Ok(seq(|names.elems|, i requires 0 <= i < |names.elems| => names.elems[i].s))
    else Err(InvalidArgument)
  }

  predicate AllStrings(elems: seq<Value>) {
    forall i :: 0 <= i < |elems| ==> elems[i].Str?
  }

  /** The injected getter: the instance's own `_<name>` when truthy, else the global entry. */
  function InjectedGet(instance: map<string, Value>, global: map<string, Value>, name: string): (v: Value)
    ensures "_" + name in instance && Truthy(instance["_" + name]) ==> v == instance["_" + name]
    ensures !("_" + name in instance && Truthy(instance["_" + name])) ==> v == Lookup(global, name)
  {
    var own := GetProp(Obj(instance), "_" + name);
    if Truthy(own) then own else Lookup(global, name)
  }

  /** The injected setter: a function becomes the instance's `_<name>`; anything else is
      ignored with a warning. */
  function InjectedSet(instance: map<string, Value>, name: string, fn: Value): (m: map<string, Value>)
    ensures fn.Func? ==> m == instance["_" + name := fn]
    ensures !fn.Func? ==> m == instance
  {
    if fn.Func? then instance["_" + name := fn] else instance
  }

  /** A function set on an instance is what its getter then returns. */
  lemma InjectedSetThenGet(instance: map<string, Value>, global: map<string, Value>, name: string, fn: Value)
    requires fn.Func?
    ensures InjectedGet(InjectedSet(instance, name, fn), global, name) == fn
  {
  }

  /** A non-function set changes nothing the getter sees. */
  lemma InjectedSetIgnored(instance: map<string, Value>, global: map<string, Value>, name: string, v: Value)
    requires !v.Func?
    ensures InjectedGet(InjectedSet(instance, name, v), global, name) == InjectedGet(instance, global, name)
  {
  }

  class ModuleManager {
    /** Registered modules by name. */
    var modules: map<string, object>
    /** Global renderers by name. */
    var renderers: map<string, Value>
    /** Global handlers by name. */
    var handlers: map<string, Value>

    /** Every global entry is a function. */
    ghost predicate Valid()
      reads this
    {
      (forall n :: n in renderers ==> renderers[n].Func?)
      && (forall n :: n in handlers ==> handlers[n].Func?)
    }

    constructor ()
      ensures Valid() && modules == map[] && renderers == map[] && handlers == map[]
    {
      modules := map[];
      renderers := map[];
      handlers := map[];
    }

    /** registerModule: a taken name is refused and nothing changes. */
    method RegisterModule(name: string, m: object) returns (o: Outcome)
      modifies this
      ensures renderers == old(renderers) && handlers == old(handlers)
      ensures o.Fail? <==> name in old(modules)
      ensures o.Fail? ==> o.error == AlreadyRegistered(name) && modules == old(modules)
      ensures o.Pass? ==> modules == old(modules)[name := m]
    {
      if name in modules {
        return Fail(AlreadyRegistered(name));
      }
      modules := modules[name := m];
      o := Pass;
    }

    /** unregisterModule: an unknown name is refused. */
    method UnregisterModule(name: string) returns (o: Outcome)
      modifies this
      ensures renderers == old(renderers) && handlers == old(handlers)
      ensures o.Fail? <==> name !in old(modules)
      ensures o.Fail? ==> o.error == NotRegistered(name)
      ensures modules == old(modules) - {name}
    {
      if name !in modules {
        return Fail(NotRegistered(name));
      }
      modules := modules - {name};
      o := Pass;
    }

    /** getModule: undefined (None) for an unknown name. */
    function GetModule(name: string): (r: Option<object>)
      reads this
      ensures r.Some? <==> name in modules
      ensures r.Some? ==> r.value == modules[name]
    {
      if name in modules then Some(modules[name]) else None
    }

    /** registerRenderer: a non-function is refused; a known name is overwritten. */
    method RegisterRenderer(name: string, fn: Value) returns (o: Outcome)
      requires Valid()
      modifies this
      ensures Valid()
      ensures modules == old(modules) && handlers == old(handlers)
      ensures o.Fail? <==> !fn.Func?
      ensures o.Fail? ==> o.error == NotCallable && renderers == old(renderers)
      ensures o.Pass? ==> renderers == old(renderers)[name := fn] && GetRenderer(name) == fn
    {
      if !fn.Func? {
        return Fail(NotCallable);
      }
      renderers := renderers[name := fn];
      o := Pass;
    }

    /** registerHandler: a non-function is refused; a known name is overwritten. */
    method RegisterHandler(name: string, fn: Value) returns (o: Outcome)
      requires Valid()
      modifies this
      ensures Valid()
      ensures modules == old(modules) && renderers == old(renderers)
      ensures o.Fail? <==> !fn.Func?
      ensures o.Fail? ==> o.error == NotCallable && handlers == old(handlers)
      ensures o.Pass? ==> handlers == old(handlers)[name := fn] && GetHandler(name) == fn
    {
      if !fn.Func? {
        return Fail(NotCallable);
      }
      handlers := handlers[name := fn];
      o := Pass;
    }

    /** getRenderer: the registered function, or null. */
    function GetRenderer(name: string): (v: Value)
      reads this
      requires Valid()
      ensures name in renderers ==> v == renderers[name]
      ensures name !in renderers ==> v == Null
    {
      Lookup(renderers, name)
    }

    /** getHandler: the registered function, or null. */
    function GetHandler(name: string): (v: Value)
      reads this
      requires Valid()
      ensures name in handlers ==> v == handlers[name]
      ensures name !in handlers ==> v == Null
    {
      Lookup(handlers, name)
    }

    /** createModuleElement's prop loop: each function prop is kept by key for the
        module instance, each other prop becomes a `data-` attribute in key order. */
    method SplitProps(props: seq<Prop>) returns (functionProps: map<string, Value>, attrs: seq<DataAttr>)
      ensures functionProps == FunctionProps(props)
      ensures attrs == DataAttrs(props)
    {
      functionProps := map[];
      attrs := [];
      var i := 0;
      while i < |props|
        invariant 0 <= i <= |props|
        invariant functionProps == FunctionProps(props[..i])
        invariant attrs == DataAttrs(props[..i])
      {
        assert props[..i + 1][..i] == props[..i];
        if props[i].value.Func? {
          functionProps := functionProps[props[i].key := props[i].value];
        } else {
          attrs := attrs + [DataAttr("data-" + props[i].key, props[i].value)];
        }
        i := i + 1;
      }
      assert props[..|props|] == props;
    }
  }

  /** The `ModuleManager.instance` slot behind the singleton constructor. */
  class Singleton {
    var instance: Option<ModuleManager>

    constructor ()
      ensures instance == None
    {
      instance := None;
    }

    /** `new ModuleManager()`: the first call makes and records an empty manager; every
        later call returns that same manager. */
    method NewManager() returns (m: ModuleManager)
      modifies this
      ensures old(instance).Some? ==> m == old(instance).value && instance == old(instance)
      ensures old(instance).None? ==>
        fresh(m) && instance == Some(m) && m.Valid()
        && m.modules == map[] && m.renderers == map[] && m.handlers == map[]
    {
      if instance.Some? {
        return instance.value;
      }
      m := new ModuleManager();
      instance := Some(m);
    }
  }
}
