/** The binding registry of a module: per state key, an ordered list of render
    callbacks, fed by one store subscription made when the key first appears. */
module View {
  import opened Wrappers
  import opened JsValues
  import opened ReactiveStore

  /** A render callback, known by identity: a closure made by bindRenderToElement for
      one element (wrapping an optional renderer function), or any other function. */
  datatype RenderFn = Bound(serial: nat, element: nat, renderer: Option<nat>) | Callback(id: nat)

  /** One visible effect of a state change: a text write, a call of a renderer
      `renderFn(value, element, key)`, a call of a plain callback, or a call of a store
      listener that is not a relay of this view. */
  datatype Render =
    | SetText(element: nat, text: Value)
    | CallRenderer(renderer: nat, value: Value, element: nat, key: string)
    | CallCallback(id: nat, value: Value)
    | CallListener(id: nat, value: Value)

  /** `value ?? ''`: the text a bound element without a renderer shows. */
  function TextOf(value: Value): (t: Value)
    ensures IsNullish(value) ==> t == Str("")
    ensures !IsNullish(value) ==> t == value
  {
    if IsNullish(value) then Str("") else value
  }

  /** The text shown is never null or undefined, a truthy value is shown as it is, and
      showing the shown text again changes nothing. */
  lemma TextOfShown(value: Value)
    ensures !IsNullish(TextOf(value))
    ensures Truthy(value) ==> TextOf(value) == value
    ensures TextOf(TextOf(value)) == TextOf(value)
  {
  }

  /** What the closure of bindRenderToElement does with a new value of `key`. */
  function BoundRender(element: nat, renderer: Option<nat>, key: string, value: Value): Render {
    if renderer.Some? then CallRenderer(renderer.value, value, element, key) else SetText(element, TextOf(value))
  }

  /** What one callback does with a new value of `key`. */
  function Run(fn: RenderFn, key: string, value: Value): Render {
    match fn
    case Bound(_, element, renderer) => BoundRender(element, renderer, key, value)
    case Callback(id) => CallCallback(id, value)
  }

  /** `renderCallbacks.forEach(callback => callback(value))`. */
  function RunAll(fns: seq<RenderFn>, key: string, value: Value): (rs: seq<Render>)
    ensures |rs| == |fns|
  {
    if fns == [] then [] else [Run(fns[0], key, value)] + RunAll(fns[1..], key, value)
  }

  /** The i-th render is the i-th callback's. */
  lemma {:induction false} RunAllPointwise(fns: seq<RenderFn>, key: string, value: Value)
    ensures forall i :: 0 <= i < |fns| ==> RunAll(fns, key, value)[i] == Run(fns[i], key, value)
  {
    if fns != [] {
      RunAllPointwise(fns[1..], key, value);
      assert forall i :: 1 <= i < |fns| ==> fns[i] == fns[1..][i - 1];
    }
  }

  /** Callbacks run in registration order: a callback pushed last renders last. */
  lemma {:induction false} RunAllAppend(fns: seq<RenderFn>, fn: RenderFn, key: string, value: Value)
    ensures RunAll(fns + [fn], key, value) == RunAll(fns, key, value) + [Run(fn, key, value)]
  {
    if fns == [] {
      assert [] + [fn] == [fn];
    } else {
      assert (fns + [fn])[1..] == fns[1..] + [fn];
      RunAllAppend(fns[1..], fn, key, value);
    }
  }

  /** How many relays for `key` a listener set holds. */
  function RelayCount(ls: seq<Listener>, key: string): (n: nat)
    ensures n <= |ls|
  {
    if ls == [] then 0
    else (if ls[0].Relay? && ls[0].key == key then 1 else 0) + RelayCount(ls[1..], key)
  }

  /** No relay for `key` is counted exactly when the set holds none. */
  lemma {:induction false} RelayCountZero(ls: seq<Listener>, key: string)
    ensures RelayCount(ls, key) == 0 <==> forall i :: 0 <= i < |ls| ==> !(ls[i].Relay? && ls[i].key == key)
  {
    if ls != [] {
      RelayCountZero(ls[1..], key);
      assert forall i :: 1 <= i < |ls| ==> ls[i] == ls[1..][i - 1];
    }
  }

  lemma {:induction false} RelayCountAppend(ls: seq<Listener>, l: Listener, key: string)
    ensures RelayCount(ls + [l], key) == RelayCount(ls, key) + (if l.Relay? && l.key == key then 1 else 0)
  {
    if ls != [] {
      assert (ls + [l])[1..] == ls[1..] + [l];
      RelayCountAppend(ls[1..], l, key);
    }
  }

  /** `renderCallbacks.filter(fn => fn !== renderFn)`. */
  function Without(fns: seq<RenderFn>, fn: RenderFn): (r: seq<RenderFn>)
    ensures |r| <= |fns|
    ensures forall g :: g in r <==> g in fns && g != fn
    ensures fn !in fns ==> r == fns
  {
    if fns == [] then []
    else if fns[0] == fn then Without(fns[1..], fn)
    else [fns[0]] + Without(fns[1..], fn)
  }

  /** Filtering keeps the survivors in their order: it distributes over concatenation. */
  lemma {:induction false} WithoutAppend(a: seq<RenderFn>, b: seq<RenderFn>, fn: RenderFn)
    ensures Without(a + b, fn) == Without(a, fn) + Without(b, fn)
  {
    if a == [] {
      assert a + b == b;
    } else {
      assert (a + b)[0] == a[0] && (a + b)[1..] == a[1..] + b;
      WithoutAppend(a[1..], b, fn);
    }
  }

  /** `context?.item?.name || 'Unknown'`. */
  function ItemLabel(context: Value): (t: Value)
    ensures Truthy(t)
    ensures t == Str("Unknown") || (context.Obj? && "item" in context.fields
      && t == GetProp(context.fields["item"], "name"))
      || (context.Arr? && t == GetProp(GetProp(context, "item"), "name"))
  {
    var item := if IsNullish(context) then Undefined else GetProp(context, "item");
    var name := if IsNullish(item) then Undefined else GetProp(item, "name");
    if Truthy(name) then name else Str("Unknown")
  }

  /** A list item's truthy name is its label. */
  lemma ItemLabelOfNamedItem(fields: map<string, Value>, name: Value)
    requires Truthy(name)
    ensures ItemLabel(Obj(map["item" := Obj(fields["name" := name])])) == name
  {
  }

  /** Without an item record (a top-level binding, a primitive context) the label is 'Unknown'. */
  lemma ItemLabelWithoutItem(context: Value)
    requires !context.Obj? || "item" !in context.fields || !context.fields["item"].Obj?
    requires !context.Arr?
    ensures ItemLabel(context) == Str("Unknown")
  {
    if context.Obj? && "item" in context.fields {
      var item := context.fields["item"];
      assert !IsObjectLike(item) || item.Arr? || item.Promise?;
      if item.Arr? {
        assert "name" != "length";
        assert CanonicalIndex("name").None?;
      }
    }
  }

  class ModuleView {
    /** The store this view subscribes to. */
    const state: ModuleState
    /** Per state key, the render callbacks in registration order. */
    var renderMap: map<string, seq<RenderFn>>
    /** The source of fresh closure identities. */
    var nextSerial: nat

    /** The store is valid, every key with callbacks has a relay in the store, and
        every relay in the store was made before `nextSerial`. */
    ghost predicate Valid()
      reads this, state
    {
      state.Valid()
      && (forall k :: k in renderMap ==> k in state.listeners && RelayCount(state.listeners[k], k) >= 1)
      && (forall k, i :: k in state.listeners && 0 <= i < |state.listeners[k]| && state.listeners[k][i].Relay?
            ==> state.listeners[k][i].serial < nextSerial)
    }

    constructor (s: ModuleState)
      requires s.Valid() && s.listeners == map[]
      ensures Valid() && state == s && renderMap == map[]
    {
      state := s;
      renderMap := map[];
      nextSerial := 0;
    }

    /** The listeners the store holds for `key`. */
    function Subscribers(key: string): (ls: seq<Listener>)
      reads state
    {
      if key in state.listeners then state.listeners[key] else []
    }

    /** What the relay for `key` does when called with `value`: each callback of the key,
        in registration order, or nothing when the key has no array. */
    function RelayRenders(key: string, value: Value): (rs: seq<Render>)
      reads this
      ensures key !in renderMap ==> rs == []
      ensures key in renderMap ==> rs == RunAll(renderMap[key], key, value)
    {
      if key in renderMap then RunAll(renderMap[key], key, value) else []
    }

    /** The effects of one notify: each listener in turn, the relays of this view by
        their key. */
    function Effects(ns: seq<Notification>): (rs: seq<Render>)
      reads this
    {
      if ns == [] then []
      else
        var n := ns[0];
        (match n.listener
         case Relay(_, k) => RelayRenders(k, n.value)
         case External(id) => [CallListener(id, n.value)])
        + Effects(ns[1..])
    }

    /** The relay body: look up the key's callbacks and call each with the value. */
    method RunRelay(key: string, value: Value) returns (rs: seq<Render>)
      ensures rs == RelayRenders(key, value)
    {
      rs := [];
      if key !in renderMap {
        return;
      }
      var fns := renderMap[key];
      var i := 0;
      while i < |fns|
        invariant 0 <= i <= |fns|
        invariant rs == RunAll(fns[..i], key, value)
      {
        RunAllAppend(fns[..i], fns[i], key, value);
        assert fns[..i + 1] == fns[..i] + [fns[i]];
        rs := rs + [Run(fns[i], key, value)];
        i := i + 1;
      }
      assert fns[..|fns|] == fns;
    }

    /** registerRender: the first registration of a key subscribes one fresh relay to
        the store; every registration appends the callback. */
    method RegisterRender(key: string, fn: RenderFn)
      requires Valid()
      modifies this, state
      ensures Valid()
      ensures state.store == old(state.store)
      ensures renderMap == old(renderMap)[key := (if key in old(renderMap) then old(renderMap)[key] else []) + [fn]]
      ensures key in old(renderMap) ==> state.listeners == old(state.listeners) && nextSerial == old(nextSerial)
      ensures key !in old(renderMap) ==>
        nextSerial == old(nextSerial) + 1
        && state.listeners == old(state.listeners)[key := old(Subscribers(key)) + [Relay(old(nextSerial), key)]]
        && RelayCount(Subscribers(key), key) == RelayCount(old(Subscribers(key)), key) + 1
    {
      if key !in renderMap {
        Subscribe(key);
      }
      Append(key, fn);
    }

    /** A key that already has its array and its relay gets one more callback. */
    method Append(key: string, fn: RenderFn)
      requires Valid() && key in renderMap
      modifies this
      ensures Valid() && nextSerial == old(nextSerial)
      ensures renderMap == old(renderMap)[key := old(renderMap)[key] + [fn]]
    {
      renderMap := renderMap[key := renderMap[key] + [fn]];
    }

    /** The first registration of `key`: an empty callback array and one fresh relay
        subscribed to the store. */
    method Subscribe(key: string)
      requires Valid() && key !in renderMap
      modifies this, state
      ensures Valid()
      ensures state.store == old(state.store)
      ensures renderMap == old(renderMap)[key := []]
      ensures nextSerial == old(nextSerial) + 1
      ensures state.listeners == old(state.listeners)[key := old(Subscribers(key)) + [Relay(old(nextSerial), key)]]
      ensures RelayCount(Subscribers(key), key) == RelayCount(old(Subscribers(key)), key) + 1
    {
      renderMap := renderMap[key := []];
      var relay := Relay(nextSerial, key);
      var current := Subscribers(key);
      forall i | 0 <= i < |current|
        ensures current[i] != relay
      {
        if current[i].Relay? {
          assert state.listeners[key][i].serial < nextSerial;
        }
      }
      assert relay !in current;
      var o := state.Listen(key, Some(relay));
      RelayCountAppend(current, relay, key);
      nextSerial := nextSerial + 1;
    }

    /** bindRenderToElement: registers a fresh closure that writes `value ?? ''` into the
        element, or calls the renderer with `(value, element, key)`. */
    method BindRenderToElement(key: string, element: nat, renderer: Option<nat>)
      requires Valid()
      modifies this, state
      ensures Valid()
      ensures state.store == old(state.store)
      ensures var fn := Bound(old(nextSerial), element, renderer);
        renderMap == old(renderMap)[key := (if key in old(renderMap) then old(renderMap)[key] else []) + [fn]]
      ensures forall v :: RelayRenders(key, v) == old(RelayRenders(key, v)) + [BoundRender(element, renderer, key, v)]
      ensures key in old(renderMap) ==> state.listeners == old(state.listeners) && nextSerial == old(nextSerial) + 1
      ensures key !in old(renderMap) ==>
        nextSerial == old(nextSerial) + 2
        && state.listeners == old(state.listeners)[key := old(Subscribers(key)) + [Relay(old(nextSerial) + 1, key)]]
        && RelayCount(Subscribers(key), key) == RelayCount(old(Subscribers(key)), key) + 1
    {
      var fn := Bound(nextSerial, element, renderer);
      nextSerial := nextSerial + 1;
      ghost var before := if key in renderMap then renderMap[key] else [];
      RegisterRender(key, fn);
      forall v: Value {
        RunAllAppend(before, fn, key, v);
      }
    }

    /** removeRenderForKey: every occurrence of the callback goes, the rest keep their
        order, and a key left without callbacks is dropped. */
    method RemoveRenderForKey(key: string, fn: RenderFn)
      requires Valid()
      modifies this
      ensures Valid() && nextSerial == old(nextSerial)
      ensures key !in old(renderMap) ==> renderMap == old(renderMap)
      ensures key in old(renderMap) && Without(old(renderMap)[key], fn) == [] ==>
        renderMap == old(renderMap) - {key}
      ensures key in old(renderMap) && Without(old(renderMap)[key], fn) != [] ==>
        renderMap == old(renderMap)[key := Without(old(renderMap)[key], fn)]
      ensures forall k :: k != key ==>
        (k in renderMap <==> k in old(renderMap)) && (k in renderMap ==> renderMap[k] == old(renderMap)[k])
    {
      if key in renderMap {
        var updated := Without(renderMap[key], fn);
        renderMap := renderMap[key := updated];
        if |updated| == 0 {
          renderMap := renderMap - {key};
        }
      }
    }

    /** unregisterRender: a known key loses its entry and then the call of the store's
        missing `unlisten` throws; an unknown key only warns. */
    method UnregisterRender(key: string) returns (o: Outcome)
      requires Valid()
      modifies this
      ensures Valid() && nextSerial == old(nextSerial)
      ensures renderMap == old(renderMap) - {key}
      ensures o.Fail? <==> key in old(renderMap)
      ensures o.Fail? ==> o.error == TypeError
    {
      if key in renderMap {
        renderMap := renderMap - {key};
        return Fail(TypeError);
      }
      o := Pass;
    }

    /** unbindAll: the table is cleared; the relays stay in the store but find no array. */
    method UnbindAll()
      requires Valid()
      modifies this
      ensures Valid() && renderMap == map[] && nextSerial == old(nextSerial)
      ensures forall k, v :: RelayRenders(k, v) == []
    {
      renderMap := map[];
    }

    /** renderTextContent: an element gets the value as its text. */
    function RenderTextContent(value: Value, element: Option<nat>): (r: Result<Render>)
      ensures r.Err? <==> element.None?
      ensures r.Err? ==> r.error == TypeMismatch
      ensures r.Ok? ==> r.value.SetText? && r.value.element == element.value && r.value.text == value
    {
      if element.None? then Err(TypeMismatch) else Ok(SetText(element.value, value))
    }

    /** renderItem: an element gets its item's name, or 'Unknown'. */
    function RenderItem(context: Value, element: Option<nat>): (r: Result<Render>)
      ensures r.Err? <==> element.None?
      ensures r.Err? ==> r.error == TypeMismatch
      ensures r.Ok? ==> r.value == SetText(element.value, ItemLabel(context)) && Truthy(r.value.text)
    {
      if element.None? then Err(TypeMismatch) else Ok(SetText(element.value, ItemLabel(context)))
    }

    /** A notify that reaches only relays of this view for `key` renders the key's
        callbacks once per relay: a key subscribed once renders each callback once, and
        a key that was re-registered after its entry was dropped renders them again per
        extra relay. */
    lemma {:induction false} EffectsOfRelays(ns: seq<Notification>, key: string, value: Value)
      requires forall i :: 0 <= i < |ns| ==> ns[i].listener.Relay? && ns[i].listener.key == key && ns[i].value == value
      ensures Effects(ns) == Repeat(RelayRenders(key, value), |ns|)
    {
      if ns != [] {
        EffectsOfRelays(ns[1..], key, value);
      }
    }

    /** On a key whose only subscriber is one relay, a store write renders each callback
        of the key exactly once, in registration order. */
    lemma SubscribedOnceRendersOnce(key: string, s: nat, value: Value)
      requires key in state.listeners && state.listeners[key] == [Relay(s, key)]
      ensures Effects(state.Notifications(key, value)) == RelayRenders(key, value)
    {
      var ns := state.Notifications(key, value);
      EffectsOfRelays(ns, key, value);
      assert Repeat(RelayRenders(key, value), 1) == RelayRenders(key, value);
    }

    /** After the key's entry was dropped and registered again, two relays serve it and
        each callback renders twice per write. */
    lemma ResubscribedRendersTwice(key: string, s1: nat, s2: nat, value: Value)
      requires key in state.listeners && state.listeners[key] == [Relay(s1, key), Relay(s2, key)]
      ensures Effects(state.Notifications(key, value)) == RelayRenders(key, value) + RelayRenders(key, value)
    {
      var ns := state.Notifications(key, value);
      EffectsOfRelays(ns, key, value);
      assert Repeat(RelayRenders(key, value), 2) == RelayRenders(key, value) + Repeat(RelayRenders(key, value), 1);
    }
  }

  /** `n` copies of `rs`, one after the other. */
  function Repeat(rs: seq<Render>, n: nat): (r: seq<Render>)
    ensures |r| == n * |rs|
  {
    if n == 0 then [] else rs + Repeat(rs, n - 1)
  }
}
