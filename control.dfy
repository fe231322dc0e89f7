/** The event pipeline of a module: at most one handler per (element, event name)
    pair, a bus of named custom events with tracked subscriptions, and the teardown
    that detaches both. */
module Control {
  import opened Wrappers
  import opened JsStrings
  import opened JsValues
  import opened ReactiveStore

  /** The closure `(event) => handler(event, element, state.getState())` made by one
      bindElementEvent call, known by its serial. */
  datatype Binding = Binding(serial: nat, element: nat, eventName: string, handler: nat)

  /** One handler call: the handler with the event, the element and the store the
      read-only view shows. */
  datatype HandlerCall = HandlerCall(handler: nat, event: Value, element: nat, snapshot: map<string, Value>)

  /** One bus callback called with `new CustomEvent(eventName, { detail })`. */
  datatype BusCall = BusCall(callback: nat, eventName: string, detail: Value)

  /** validateEventName: a string that is not blank once trimmed. */
  function ValidateEventName(v: Value): (o: Outcome)
    ensures o.Pass? <==> v.Str? && Trim(v.s) != ""
    ensures o.Fail? ==> o.error == InvalidName
  {
    if v.Str? && Trim(v.s) != "" then Pass else Fail(InvalidName)
  }

  /** A name made only of whitespace is refused like the empty one. */
  lemma BlankNameRefused(s: string)
    requires forall i :: 0 <= i < |s| ==> IsWhitespace(s[i])
    ensures ValidateEventName(Str(s)) == Fail(InvalidName)
  {
    TrimStartBlank(s);
  }

  lemma {:induction false} TrimStartBlank(s: string)
    requires forall i :: 0 <= i < |s| ==> IsWhitespace(s[i])
    ensures TrimStart(s) == []
  {
    if s != [] {
      TrimStartBlank(s[1..]);
    }
  }

  /** The checks binding runs, in order: the element, the name, the handler. */
  function ValidateBinding(element: Option<nat>, eventName: Value, handler: Value): (o: Outcome)
    ensures o.Pass? <==> element.Some? && ValidateEventName(eventName).Pass? && handler.Func?
    ensures element.None? ==> o == Fail(TypeMismatch)
    ensures element.Some? && ValidateEventName(eventName).Fail? ==> o == Fail(InvalidName)
    ensures element.Some? && ValidateEventName(eventName).Pass? && !handler.Func? ==> o == Fail(NotCallable)
  {
    if element.None? then Fail(TypeMismatch)
    else if ValidateEventName(eventName).Fail? then Fail(InvalidName)
    else if !handler.Func? then Fail(NotCallable)
    else Pass
  }

  /** `filter(c => c !== callback)` on a listener list. */
  function Removed(s: seq<nat>, c: nat): (r: seq<nat>)
    ensures c !in r && forall x :: x in r <==> x in s && x != c
    ensures c !in s ==> r == s
    ensures NoDuplicates(s) ==> NoDuplicates(r)
  {
    if s == [] then []
    else if s[0] == c then Removed(s[1..], c)
    else
      var r := Removed(s[1..], c);
      assert NoDuplicates(s) ==> s[0] !in s[1..];
      [s[0]] + r
  }

  lemma RemovedHead(s: seq<nat>)
    requires s != [] && NoDuplicates(s)
    ensures Removed(s, s[0]) == s[1..]
  {
    assert s[0] !in s[1..];
  }

  /** `Set.prototype.add` on a callback set. */
  function Inserted(s: seq<nat>, c: nat): (r: seq<nat>)
    ensures c in s ==> r == s
    ensures c !in s ==> r == s + [c]
    ensures NoDuplicates(s) ==> NoDuplicates(r)
  {
    if c in s then s else s + [c]
  }

  /** A listener table after adding `c` under `n`. */
  function TableAdd(t: map<string, seq<nat>>, n: string, c: nat): (r: map<string, seq<nat>>)
    ensures r == t[n := Inserted(if n in t then t[n] else [], c)]
  {
    t[n := Inserted(if n in t then t[n] else [], c)]
  }

  /** A listener table after removing `c` under `n`; a name left with no callback goes. */
  function TableRemove(t: map<string, seq<nat>>, n: string, c: nat): (r: map<string, seq<nat>>)
    ensures n !in t ==> r == t
    ensures n in t && Removed(t[n], c) == [] ==> r == t - {n}
    ensures n in t && Removed(t[n], c) != [] ==> r == t[n := Removed(t[n], c)]
  {
    if n in t then
      (if Removed(t[n], c) == [] then t - {n} else t[n := Removed(t[n], c)])
    else t
  }

  /** Every listener on an element is the one the table holds for its pair. */
  ghost predicate Attached(h: map<nat, map<string, Binding>>, a: set<Binding>) {
    forall b :: b in a ==> b.element in h && b.eventName in h[b.element] && h[b.element][b.eventName] == b
  }

  /** The element table and the listeners on elements agree, and no element keeps an
      empty table. */
  ghost predicate Agree(h: map<nat, map<string, Binding>>, a: set<Binding>) {
    Attached(h, a)
    && Keyed(h)
    && (forall e :: e in h ==> h[e] != map[])
    && (forall e, n :: e in h && n in h[e] ==> h[e][n] in a)
  }

  /** Each closure in the table is filed under its own element and event name. */
  ghost predicate Keyed(h: map<nat, map<string, Binding>>) {
    forall e, n :: e in h && n in h[e] ==> h[e][n].element == e && h[e][n].eventName == n
  }

  /** The table after storing `b` for its pair. */
  function Bind(h: map<nat, map<string, Binding>>, b: Binding): map<nat, map<string, Binding>> {
    h[b.element := (if b.element in h then h[b.element] else map[])[b.eventName := b]]
  }

  /** The table after dropping the pair; an element left with no name goes. */
  function Unbind(h: map<nat, map<string, Binding>>, e: nat, n: string): map<nat, map<string, Binding>>
    requires e in h
  {
    if h[e] - {n} == map[] then h - {e} else h[e := h[e] - {n}]
  }

  lemma AgreeBind(h: map<nat, map<string, Binding>>, a: set<Binding>, b: Binding)
    requires Agree(h, a)
    requires !(b.element in h && b.eventName in h[b.element])
    ensures Agree(Bind(h, b), a + {b})
  {
    var h' := Bind(h, b);
    forall x | x in a + {b}
      ensures x.element in h' && x.eventName in h'[x.element] && h'[x.element][x.eventName] == x
    {
      if x != b {
        assert x.element in h && x.eventName in h[x.element];
      }
    }
  }

  lemma AgreeUnbind(h: map<nat, map<string, Binding>>, a: set<Binding>, e: nat, n: string)
    requires Agree(h, a) && e in h && n in h[e]
    ensures Agree(Unbind(h, e, n), a - {h[e][n]})
    ensures forall e': nat, n' ::
      (e' in Unbind(h, e, n) && n' in Unbind(h, e, n)[e']) <==> (e' in h && n' in h[e'] && (e', n') != (e, n))
  {
    var h' := Unbind(h, e, n);
    var a' := a - {h[e][n]};
    forall x | x in a'
      ensures x.element in h' && x.eventName in h'[x.element] && h'[x.element][x.eventName] == x
    {
      assert x.element in h && x.eventName in h[x.element];
      if x.element == e {
        assert x.eventName != n;
        assert x.eventName in h[e] - {n};
        assert h' == h[e := h[e] - {n}];
      }
    }
  }

  class ModuleControl {
    /** The module's store. */
    const state: ModuleState
    /** Per element, its event names and the closures bound for them. */
    var handlers: map<nat, map<string, Binding>>
    /** False once cleanupEvents has replaced the table with a WeakMap, which has no forEach. */
    var iterable: bool
    /** The tracked bus subscriptions: per event name, its callback set in insertion order. */
    var tracked: map<string, seq<nat>>
    /** The listeners registered on the bus itself. */
    var bus: map<string, seq<nat>>
    /** The listeners registered on elements. */
    var attached: set<Binding>
    /** The source of fresh closure identities. */
    var nextSerial: nat

    /** Every listener on an element is the one its table entry holds. */
    ghost predicate Coherent()
      reads this
    {
      Attached(handlers, attached)
    }

    /** The element table and the listeners on elements agree, the bus holds exactly
        the tracked callbacks, and no tracked set is empty or repeats a callback. */
    ghost predicate Valid()
      reads this
    {
      Agree(handlers, attached)
      && bus == tracked
      && (forall n :: n in tracked ==> tracked[n] != [] && NoDuplicates(tracked[n]))
    }

    /** Whether the pair has a binding. */
    predicate IsBound(element: nat, eventName: string)
      reads this
    {
      element in handlers && eventName in handlers[element]
    }

    constructor (s: ModuleState)
      ensures Valid() && state == s && iterable
      ensures handlers == map[] && tracked == map[] && attached == {}
    {
      state := s;
      handlers := map[];
      iterable := true;
      tracked := map[];
      bus := map[];
      attached := {};
      nextSerial := 0;
    }

    /** `new ModuleControl(state)`: refused without a store. */
    static method Create(s: Option<ModuleState>) returns (r: Result<ModuleControl>)
      ensures r.Err? <==> s.None?
      ensures r.Err? ==> r.error == InvalidState
      ensures r.Ok? ==> fresh(r.value) && r.value.Valid() && r.value.state == s.value
      ensures r.Ok? ==> r.value.handlers == map[] && r.value.tracked == map[]
    {
      if s.None? {
        return Err(InvalidState);
      }
      var c := new ModuleControl(s.value);
      return Ok(c);
    }

    /** The handler calls an event of `eventName` on `element` makes. */
    function Fire(element: nat, eventName: string, event: Value): (calls: set<HandlerCall>)
      reads this, state
    {
      set b | b in attached && b.element == element && b.eventName == eventName
        :: HandlerCall(b.handler, event, element, state.store)
    }

    /** At most one binding per pair: an event on a bound pair calls its handler once,
        with the event, the element and the current store; on an unbound pair nothing. */
    lemma FireCallsBoundHandler(element: nat, eventName: string, event: Value)
      requires Valid()
      ensures !IsBound(element, eventName) ==> Fire(element, eventName, event) == {}
      ensures IsBound(element, eventName) ==>
        Fire(element, eventName, event) == {HandlerCall(handlers[element][eventName].handler, event, element, state.store)}
    {
      if IsBound(element, eventName) {
        var b := handlers[element][eventName];
        assert b in attached;
        assert forall x :: x in attached && x.element == element && x.eventName == eventName ==> x == b;
      }
    }

    /** The bus listeners of a name. */
    function Subscribers(eventName: string): (cs: seq<nat>)
      reads this
    {
      if eventName in bus then bus[eventName] else []
    }

    /** dispatch: a valid name reaches each bus listener of the name in order, with the
        detail (`{}` when it is undefined). */
    function Dispatch(eventName: Value, detail: Value): (r: Result<seq<BusCall>>)
      reads this
      ensures r.Err? <==> ValidateEventName(eventName).Fail?
      ensures r.Err? ==> r.error == InvalidName
      ensures r.Ok? ==> |r.value| == |Subscribers(eventName.s)|
      ensures r.Ok? ==> forall i :: 0 <= i < |r.value| ==>
        r.value[i] == BusCall(Subscribers(eventName.s)[i], eventName.s, if detail == Undefined then Obj(map[]) else detail)
    {
      if ValidateEventName(eventName).Fail? then Err(InvalidName)
      else
        var cs := Subscribers(eventName.s);
        var d := if detail == Undefined then Obj(map[]) else detail;
        Ok(seq(|cs|, i requires 0 <= i < |cs| => BusCall(cs[i], eventName.s, d)))
    }

    /** bindElementEvent: the checks in order, then a refusal of an already-bound pair
        that leaves its binding as it was, then a fresh closure stored and attached. */
    method BindElementEvent(element: Option<nat>, eventName: Value, handler: Value) returns (o: Outcome)
      requires Valid()
      modifies this
      ensures Valid()
      ensures tracked == old(tracked) && bus == old(bus) && iterable == old(iterable)
      ensures ValidateBinding(element, eventName, handler).Fail? ==> o == ValidateBinding(element, eventName, handler)
      ensures ValidateBinding(element, eventName, handler).Pass? && old(IsBound(element.value, eventName.s)) ==>
        o == Fail(DuplicateBinding)
      ensures o.Fail? ==> handlers == old(handlers) && attached == old(attached)
      ensures o.Pass? <==> ValidateBinding(element, eventName, handler).Pass? && !old(IsBound(element.value, eventName.s))
      ensures o.Pass? ==>
        var b := Binding(old(nextSerial), element.value, eventName.s, handler.fid);
        handlers == Bind(old(handlers), b) && attached == old(attached) + {b} && IsBound(element.value, eventName.s)
    {
      o := ValidateBinding(element, eventName, handler);
      if o.Fail? {
        return;
      }
      var e := element.value;
      var n := eventName.s;
      if IsBound(e, n) {
        return Fail(DuplicateBinding);
      }
      Attach(e, n, handler.fid);
    }

    /** The closure for a free pair: a fresh serial, stored in the table and attached. */
    method Attach(e: nat, n: string, fid: nat)
      requires Valid() && !IsBound(e, n)
      modifies this
      ensures Valid()
      ensures tracked == old(tracked) && bus == old(bus) && iterable == old(iterable)
      ensures var b := Binding(old(nextSerial), e, n, fid);
        handlers == Bind(old(handlers), b) && attached == old(attached) + {b} && IsBound(e, n)
    {
      var b := Binding(nextSerial, e, n, fid);
      AgreeBind(handlers, attached, b);
      nextSerial := nextSerial + 1;
      var table := if e in handlers then handlers[e] else map[];
      handlers := handlers[e := table[n := b]];
      attached := attached + {b};
    }

    /** detachElementEvent: exactly the pair goes (an element left with none goes too);
        an unbound pair is refused. */
    method DetachElementEvent(element: Option<nat>, eventName: Value) returns (o: Outcome)
      requires Valid()
      modifies this
      ensures Valid()
      ensures tracked == old(tracked) && bus == old(bus) && iterable == old(iterable)
      ensures element.None? ==> o == Fail(TypeMismatch)
      ensures element.Some? && ValidateEventName(eventName).Fail? ==> o == Fail(InvalidName)
      ensures element.Some? && ValidateEventName(eventName).Pass? && !old(IsBound(element.value, eventName.s)) ==>
        o == Fail(MissingBinding)
      ensures o.Fail? ==> handlers == old(handlers) && attached == old(attached)
      ensures o.Pass? ==>
        element.Some? && eventName.Str? && old(IsBound(element.value, eventName.s))
        && attached == old(attached) - {old(handlers)[element.value][eventName.s]}
        && handlers == Unbind(old(handlers), element.value, eventName.s)
        && (forall e: nat, n :: IsBound(e, n) <==> old(IsBound(e, n)) && (e, n) != (element.value, eventName.s))
    {
      if element.None? {
        return Fail(TypeMismatch);
      }
      o := ValidateEventName(eventName);
      if o.Fail? {
        return;
      }
      var e := element.value;
      var n := eventName.s;
      if !IsBound(e, n) {
        return Fail(MissingBinding);
      }
      Detach(e, n);
    }

    /** The closure of a bound pair: detached and dropped from the table, with an
        element left without bindings dropped too. */
    method Detach(e: nat, n: string)
      requires Valid() && IsBound(e, n)
      modifies this
      ensures Valid()
      ensures tracked == old(tracked) && bus == old(bus) && iterable == old(iterable)
      ensures attached == old(attached) - {old(handlers)[e][n]}
      ensures handlers == Unbind(old(handlers), e, n)
      ensures forall e': nat, n' :: IsBound(e', n') <==> old(IsBound(e', n')) && (e', n') != (e, n)
    {
      var b := handlers[e][n];
      AgreeUnbind(handlers, attached, e, n);
      attached := attached - {b};
      var table := handlers[e] - {n};
      if table == map[] {
        handlers := handlers - {e};
      } else {
        handlers := handlers[e := table];
      }
    }

    /** Removes from the elements the listeners the table holds for `e`, one event name
        at a time. */
    method DetachListeners(e: nat)
      requires Coherent() && Keyed(handlers)
      modifies this`attached
      ensures Coherent()
      ensures forall b :: b in attached <==> b in old(attached) && b.element != e
    {
      if e !in handlers {
        return;
      }
      var names := handlers[e].Keys;
      while names != {}
        invariant Coherent()
        invariant forall b :: b in attached <==>
          b in old(attached) && (b.element != e || b.eventName in names)
        decreases names
      {
        var n :| n in names;
        ghost var before := attached;
        attached := attached - {handlers[e][n]};
        names := names - {n};
        forall b | b in before && b.element == e && b.eventName == n
          ensures b !in attached
        {
          assert handlers[b.element][b.eventName] == b;
        }
      }
    }

    /** detachAllEvents: every pair of the element goes; an element without bindings
        is left as it is. */
    method DetachAllEvents(element: Option<nat>) returns (o: Outcome)
      requires Valid()
      modifies this
      ensures Valid()
      ensures tracked == old(tracked) && bus == old(bus) && iterable == old(iterable)
      ensures o.Fail? <==> element.None?
      ensures o.Fail? ==> o.error == TypeMismatch && handlers == old(handlers) && attached == old(attached)
      ensures o.Pass? ==>
        handlers == old(handlers) - {element.value}
        && forall b :: b in attached <==> b in old(attached) && b.element != element.value
    {
      if element.None? {
        return Fail(TypeMismatch);
      }
      var e := element.value;
      DetachListeners(e);
      handlers := handlers - {e};
      o := Pass;
    }

    /** Removes every tracked callback from the bus, name by name and callback by
        callback. */
    method DetachBus()
      requires bus == tracked
      requires forall n :: n in tracked ==> tracked[n] != [] && NoDuplicates(tracked[n])
      modifies this`bus
      ensures bus == map[]
    {
      var todo := tracked.Keys;
      while todo != {}
        invariant todo <= tracked.Keys
        invariant forall m :: m in bus <==> m in todo
        invariant forall m :: m in bus ==> bus[m] == tracked[m]
        decreases todo
      {
        var n :| n in todo;
        var cs := tracked[n];
        var i := 0;
        while i < |cs|
          invariant 0 <= i <= |cs|
          invariant forall m :: m != n ==> (m in bus <==> m in todo)
          invariant forall m :: m != n && m in bus ==> bus[m] == tracked[m]
          invariant n in bus <==> i < |cs|
          invariant n in bus ==> bus[n] == cs[i..]
        {
          assert cs[i..] != [] && cs[i..][0] == cs[i];
          assert NoDuplicates(cs[i..]);
          RemovedHead(cs[i..]);
          assert cs[i..][1..] == cs[i + 1..];
          bus := TableRemove(bus, n, cs[i]);
          i := i + 1;
        }
        todo := todo - {n};
      }
    }

    /** cleanupEvents: every listener on an element and every bus subscription is
        removed, so no event reaches a handler and no dispatch reaches a callback; the
        element table becomes a WeakMap, and a second call throws with nothing changed. */
    method CleanupEvents() returns (o: Outcome)
      requires Valid()
      modifies this
      ensures Valid()
      ensures o.Fail? <==> !old(iterable)
      ensures o.Fail? ==>
        o.error == TypeError && handlers == old(handlers) && attached == old(attached)
        && tracked == old(tracked) && bus == old(bus) && !iterable
      ensures o.Pass? ==> handlers == map[] && attached == {} && tracked == map[] && bus == map[] && !iterable
      ensures o.Pass? ==> forall n, d :: Dispatch(n, d).Ok? ==> Dispatch(n, d).value == []
    {
      if !iterable {
        return Fail(TypeError);
      }
      var todo := handlers.Keys;
      while todo != {}
        invariant Coherent()
        invariant handlers == old(handlers) && bus == old(bus) && tracked == old(tracked)
        invariant forall b :: b in attached <==> b in old(attached) && b.element in todo
        decreases todo
      {
        var e :| e in todo;
        DetachListeners(e);
        todo := todo - {e};
      }
      handlers := map[];
      iterable := false;
      DetachBus();
      tracked := map[];
      o := Pass;
    }

    /** on: a valid name and a function; the callback joins the name's set once, on the
        bus and in the tracker. */
    method On(eventName: Value, callback: Value) returns (o: Outcome)
      requires Valid()
      modifies this
      ensures Valid()
      ensures handlers == old(handlers) && attached == old(attached) && iterable == old(iterable)
      ensures ValidateEventName(eventName).Fail? ==> o == Fail(InvalidName)
      ensures ValidateEventName(eventName).Pass? && !callback.Func? ==> o == Fail(NotCallable)
      ensures o.Fail? ==> tracked == old(tracked)
      ensures o.Pass? <==> ValidateEventName(eventName).Pass? && callback.Func?
      ensures o.Pass? ==> tracked == TableAdd(old(tracked), eventName.s, callback.fid)
    {
      o := ValidateEventName(eventName);
      if o.Fail? {
        return;
      }
      if !callback.Func? {
        return Fail(NotCallable);
      }
      bus := TableAdd(bus, eventName.s, callback.fid);
      tracked := TableAdd(tracked, eventName.s, callback.fid);
    }

    /** off: the callback leaves the name's set; a name left empty is dropped. */
    method Off(eventName: Value, callback: Value) returns (o: Outcome)
      requires Valid()
      modifies this
      ensures Valid()
      ensures handlers == old(handlers) && attached == old(attached) && iterable == old(iterable)
      ensures ValidateEventName(eventName).Fail? ==> o == Fail(InvalidName)
      ensures ValidateEventName(eventName).Pass? && !callback.Func? ==> o == Fail(NotCallable)
      ensures o.Fail? ==> tracked == old(tracked)
      ensures o.Pass? <==> ValidateEventName(eventName).Pass? && callback.Func?
      ensures o.Pass? ==> tracked == TableRemove(old(tracked), eventName.s, callback.fid)
      ensures o.Pass? ==> callback.fid !in Subscribers(eventName.s)
    {
      o := ValidateEventName(eventName);
      if o.Fail? {
        return;
      }
      if !callback.Func? {
        return Fail(NotCallable);
      }
      bus := TableRemove(bus, eventName.s, callback.fid);
      tracked := TableRemove(tracked, eventName.s, callback.fid);
    }
  }

  /** Subscribing twice is subscribing once. */
  lemma TableAddIdempotent(t: map<string, seq<nat>>, n: string, c: nat)
    ensures TableAdd(TableAdd(t, n, c), n, c) == TableAdd(t, n, c)
  {
  }

  /** Removing a callback just subscribed to a name it was not in restores the table. */
  lemma TableRemoveAdd(t: map<string, seq<nat>>, n: string, c: nat)
    requires n in t ==> t[n] != [] && c !in t[n]
    ensures TableRemove(TableAdd(t, n, c), n, c) == t
  {
    var s := if n in t then t[n] else [];
    assert Removed(s + [c], c) == s by {
      RemovedAppend(s, c);
    }
  }

  lemma {:induction false} RemovedAppend(s: seq<nat>, c: nat)
    requires c !in s
    ensures Removed(s + [c], c) == s
  {
    if s != [] {
      assert (s + [c])[1..] == s[1..] + [c];
      RemovedAppend(s[1..], c);
    } else {
      assert [c][1..] == [];
    }
  }
}
