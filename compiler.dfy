/** ModuleDirectiveParser: the compiler that turns the directive attributes of a
    module's tree into state bindings, event listeners, view renderers, list renders
    and conditional display, calling the module's own binding operations. */
module Compiler {
  import opened Wrappers
  import opened JsStrings
  import opened JsValues
  import opened DirectiveSyntax
  import opened DomTree
  import opened HandlerChains
  import opened View
  import opened Control
  import opened Lifecycle

  /** What a function the parser creates and hands to the module does once called.
      The module only sees it as `Func(id, false)`; the parser keeps this record. */
  datatype Closure =
    | StateHandler(stateName: string, stages: seq<Stage>, itemContext: Option<Value>)
      // the `s-` listener: the handler chain, then `state[stateName] = value`
    | ControlHandler(action: ParsedDirective, itemContext: Option<Value>)
      // the `c-` listener: the first action, then its operator
    | ViewRenderFn(rendererName: string)
      // the `v-` render callback: looks the renderer up when the state changes
    | ListRenderFn(template: nat)
      // the `l-` render callback: renders the template again from the new value

  /** Where `this.module[name] || this.module.render[name]` finds a renderer: a truthy
      property of the module itself, or the render proxy's answer. */
  datatype RenderTarget = OwnMember(name: string) | ProxyEntry(entry: RendererRef)

  /** One renderer call made while parsing: `renderer.call(module, value, element)`. */
  datatype RenderCall = RenderCall(target: RenderTarget, value: Value, element: nat)

  /** The parts of the parser and of its module that parsing only ever adds to. */
  datatype Snapshot = Snapshot(closures: seq<Closure>, handlers: map<nat, map<string, Binding>>,
                               renderMap: map<string, seq<RenderFn>>)

  /** Nothing recorded in `a` is lost or changed in `b`: closures are only appended
      to, every element keeps its event bindings, and every key's render callbacks are
      only appended to. */
  ghost predicate Grows(a: Snapshot, b: Snapshot) {
    a.closures <= b.closures
    && (forall e :: e in a.handlers ==> e in b.handlers && a.handlers[e].Items <= b.handlers[e].Items)
    && (forall k :: k in a.renderMap ==> k in b.renderMap && a.renderMap[k] <= b.renderMap[k])
  }

  /** The event `eventName` of `element` is bound to a function the parser made, and that
      function does what `c` says. */
  predicate Wired(s: Snapshot, element: nat, eventName: string, c: Closure) {
    element in s.handlers && eventName in s.handlers[element]
    && s.handlers[element][eventName].handler < |s.closures|
    && s.closures[s.handlers[element][eventName].handler] == c
  }

  /** The i-th render callback of `key` renders `element`, with the parser's function `c`
      as its renderer, or with none (plain text) when `c` is None. */
  predicate RendersAt(s: Snapshot, key: string, i: nat, element: nat, c: Option<Closure>) {
    key in s.renderMap && i < |s.renderMap[key]|
    && var fn := s.renderMap[key][i];
    fn.Bound? && fn.element == element
    && (c.None? ==> fn.renderer.None?)
    && (c.Some? ==> fn.renderer.Some? && fn.renderer.value < |s.closures| && s.closures[fn.renderer.value] == c.value)
  }

  ghost predicate Renders(s: Snapshot, key: string, element: nat, c: Option<Closure>) {
    exists i: nat :: RendersAt(s, key, i, element, c)
  }

  /** handleStateDirective(WithContext) has done its work: the state key renders into
      the element as text, and the event before the first `|` runs the chain. */
  ghost predicate StateWired(s: Snapshot, element: nat, stateName: string, eventName: string, itemContext: Option<Value>) {
    Wired(s, element, BoundEventName(eventName), StateHandler(stateName, Tokenize(eventName), itemContext))
    && Renders(s, stateName, element, None)
  }

  /** handleControlDirective(WithContext) has bound the event to the reading of the
      directive value. */
  ghost predicate ControlWired(s: Snapshot, element: nat, eventName: string, directiveValue: string,
                               itemContext: Option<Value>) {
    Wired(s, element, eventName, ControlHandler(ControlReading(directiveValue), itemContext))
  }

  /** handleViewDirective has bound the state key to the element with a render callback
      that looks up the named renderer. */
  ghost predicate ViewWired(s: Snapshot, element: nat, stateName: string, renderFnName: string) {
    Renders(s, stateName, element, Some(ViewRenderFn(renderFnName)))
  }

  /** Every directive of `ds` is wired as a state, control or view directive. */
  ghost predicate StatesWired(s: Snapshot, ds: seq<Directive>, itemContext: Option<Value>) {
    forall j :: 0 <= j < |ds| ==> StateWired(s, ds[j].element, ds[j].name, ds[j].value, itemContext)
  }

  ghost predicate ControlsWired(s: Snapshot, ds: seq<Directive>, itemContext: Option<Value>) {
    forall j :: 0 <= j < |ds| ==> ControlWired(s, ds[j].element, ds[j].name, ds[j].value, itemContext)
  }

  ghost predicate ViewsWired(s: Snapshot, ds: seq<Directive>) {
    forall j :: 0 <= j < |ds| ==> ViewWired(s, ds[j].element, ds[j].name, ds[j].value)
  }

  lemma GrowsTransitive(a: Snapshot, b: Snapshot, c: Snapshot)
    requires Grows(a, b) && Grows(b, c)
    ensures Grows(a, c)
  {
  }

  /** A binding stays as the snapshot grows. */
  lemma KeepsWired(a: Snapshot, b: Snapshot, element: nat, eventName: string, c: Closure)
    requires Grows(a, b) && Wired(a, element, eventName, c)
    ensures Wired(b, element, eventName, c)
  {
    var binding := a.handlers[element][eventName];
    assert (eventName, binding) in a.handlers[element].Items;
    assert (eventName, binding) in b.handlers[element].Items;
  }

  /** A render callback stays as the snapshot grows. */
  lemma KeepsRenders(a: Snapshot, b: Snapshot, key: string, element: nat, c: Option<Closure>)
    requires Grows(a, b) && Renders(a, key, element, c)
    ensures Renders(b, key, element, c)
  {
    var i: nat :| RendersAt(a, key, i, element, c);
    assert a.renderMap[key][i] == b.renderMap[key][i];
    assert RendersAt(b, key, i, element, c);
  }

  /** The first `count` directives stay wired as the snapshot grows, and with the one
      just wired the first `count + 1` are. */
  lemma KeepsStates(a: Snapshot, b: Snapshot, ds: seq<Directive>, count: nat, itemContext: Option<Value>)
    requires Grows(a, b) && count < |ds|
    requires StatesWired(a, ds[..count], itemContext)
    requires StateWired(b, ds[count].element, ds[count].name, ds[count].value, itemContext)
    ensures StatesWired(b, ds[..count + 1], itemContext)
  {
    forall j | 0 <= j < count
      ensures StateWired(b, ds[j].element, ds[j].name, ds[j].value, itemContext)
    {
      assert ds[..count][j] == ds[j];
      KeepsWired(a, b, ds[j].element, BoundEventName(ds[j].value),
                 StateHandler(ds[j].name, Tokenize(ds[j].value), itemContext));
      KeepsRenders(a, b, ds[j].name, ds[j].element, None);
    }
  }

  lemma KeepsControls(a: Snapshot, b: Snapshot, ds: seq<Directive>, count: nat, itemContext: Option<Value>)
    requires Grows(a, b) && count < |ds|
    requires ControlsWired(a, ds[..count], itemContext)
    requires ControlWired(b, ds[count].element, ds[count].name, ds[count].value, itemContext)
    ensures ControlsWired(b, ds[..count + 1], itemContext)
  {
    forall j | 0 <= j < count
      ensures ControlWired(b, ds[j].element, ds[j].name, ds[j].value, itemContext)
    {
      assert ds[..count][j] == ds[j];
      KeepsWired(a, b, ds[j].element, ds[j].name, ControlHandler(ControlReading(ds[j].value), itemContext));
    }
  }

  lemma KeepsViews(a: Snapshot, b: Snapshot, ds: seq<Directive>, count: nat)
    requires Grows(a, b) && count < |ds|
    requires forall j :: 0 <= j < count ==> ViewWired(a, ds[j].element, ds[j].name, ds[j].value)
    requires ViewWired(b, ds[count].element, ds[count].name, ds[count].value)
    ensures forall j :: 0 <= j < count + 1 ==> ViewWired(b, ds[j].element, ds[j].name, ds[j].value)
  {
    forall j | 0 <= j < count
      ensures ViewWired(b, ds[j].element, ds[j].name, ds[j].value)
    {
      KeepsRenders(a, b, ds[j].name, ds[j].element, Some(ViewRenderFn(ds[j].value)));
    }
  }

  /** Every directive of `ds` stays wired as the snapshot grows. */
  lemma StatesStay(a: Snapshot, b: Snapshot, ds: seq<Directive>, itemContext: Option<Value>)
    requires Grows(a, b)
    requires StatesWired(a, ds, itemContext)
    ensures StatesWired(b, ds, itemContext)
  {
    forall j | 0 <= j < |ds|
      ensures StateWired(b, ds[j].element, ds[j].name, ds[j].value, itemContext)
    {
      KeepsWired(a, b, ds[j].element, BoundEventName(ds[j].value),
                 StateHandler(ds[j].name, Tokenize(ds[j].value), itemContext));
      KeepsRenders(a, b, ds[j].name, ds[j].element, None);
    }
  }

  lemma ControlsStay(a: Snapshot, b: Snapshot, ds: seq<Directive>, itemContext: Option<Value>)
    requires Grows(a, b)
    requires ControlsWired(a, ds, itemContext)
    ensures ControlsWired(b, ds, itemContext)
  {
    forall j | 0 <= j < |ds|
      ensures ControlWired(b, ds[j].element, ds[j].name, ds[j].value, itemContext)
    {
      KeepsWired(a, b, ds[j].element, ds[j].name, ControlHandler(ControlReading(ds[j].value), itemContext));
    }
  }

  lemma ViewsStay(a: Snapshot, b: Snapshot, ds: seq<Directive>)
    requires Grows(a, b)
    requires ViewsWired(a, ds)
    ensures ViewsWired(b, ds)
  {
    forall j | 0 <= j < |ds|
      ensures ViewWired(b, ds[j].element, ds[j].name, ds[j].value)
    {
      KeepsRenders(a, b, ds[j].name, ds[j].element, Some(ViewRenderFn(ds[j].value)));
    }
  }

  /** What parse has bound when it completes: every `s-` directive of the tree is wired,
      every `v-` directive renders, and every `c-` directive has a first action and
      is wired. */
  ghost predicate ParsedWired(s: Snapshot, ds: seq<Directive>) {
    var states := OfFamily(ds, 's');
    var views := OfFamily(ds, 'v');
    var controls := OfFamily(ds, 'c');
    (forall j :: 0 <= j < |states| ==>
       StateWired(s, states[j].element, states[j].name, states[j].value, None))
    && (forall j :: 0 <= j < |views| ==> ViewWired(s, views[j].element, views[j].name, views[j].value))
    && (forall j :: 0 <= j < |controls| ==>
          ControlWired(s, controls[j].element, controls[j].name, controls[j].value, None)
          && CompileControl(controls[j].value).Ok?)
  }

  /** The state directives wired by the early passes stay wired through the late ones,
      which wire the view and control directives: together, what parse promises. */
  lemma WiredAfterPasses(s1: Snapshot, s2: Snapshot, ds: seq<Directive>,
                          states: seq<Directive>, views: seq<Directive>, controls: seq<Directive>)
    requires states == OfFamily(ds, 's') && views == OfFamily(ds, 'v') && controls == OfFamily(ds, 'c')
    requires Grows(s1, s2)
    requires StatesWired(s1, states, None) && ViewsWired(s2, views) && ControlsWired(s2, controls, None)
    requires Compiled(controls)
    ensures ParsedWired(s2, ds)
  {
    StatesStay(s1, s2, states, None);
  }

  /** A binding added for a pair that was free keeps every other binding. */
  lemma BindKeeps(h: map<nat, map<string, Binding>>, b: Binding)
    requires !(b.element in h && b.eventName in h[b.element])
    ensures var h' := Bind(h, b);
      (forall e :: e in h ==> e in h' && h[e].Items <= h'[e].Items)
      && b.element in h' && b.eventName in h'[b.element] && h'[b.element][b.eventName] == b
  {
  }

  /** No listener is bound yet for the event `eventName` of `element`. */
  predicate Free(s: Snapshot, element: nat, eventName: string) {
    !(element in s.handlers && eventName in s.handlers[element])
  }

  /** Every (element, event) pair free in `a` and not among `taken` is still free in `b`. */
  ghost predicate FreeKept(a: Snapshot, b: Snapshot, taken: seq<(nat, string)>) {
    forall e: nat, n: string :: Free(a, e, n) && (e, n) !in taken ==> Free(b, e, n)
  }

  /** The pairs can be bound one after another starting from `s`: no event name is
      blank, every pair is free in `s`, and no pair comes twice. */
  predicate Bindable(s: Snapshot, pairs: seq<(nat, string)>) {
    (forall j :: 0 <= j < |pairs| ==> Trim(pairs[j].1) != "" && Free(s, pairs[j].0, pairs[j].1))
    && (forall j, k :: 0 <= j < k < |pairs| ==> pairs[j] != pairs[k])
  }

  /** The pair each `s-` directive binds: its element and the event before the first `|`. */
  function StatePairs(ds: seq<Directive>): (ps: seq<(nat, string)>)
    ensures |ps| == |ds| && forall j :: 0 <= j < |ds| ==> ps[j] == (ds[j].element, BoundEventName(ds[j].value))
  {
    seq(|ds|, j requires 0 <= j < |ds| => (ds[j].element, BoundEventName(ds[j].value)))
  }

  /** The pair each `c-` directive binds: its element and the event its attribute names. */
  function ControlPairs(ds: seq<Directive>): (ps: seq<(nat, string)>)
    ensures |ps| == |ds| && forall j :: 0 <= j < |ds| ==> ps[j] == (ds[j].element, ds[j].name)
  {
    seq(|ds|, j requires 0 <= j < |ds| => (ds[j].element, ds[j].name))
  }

  /** Every top-level control directive names a first action. */
  predicate Compiled(controls: seq<Directive>) {
    forall j :: 0 <= j < |controls| ==> CompileControl(controls[j].value).Ok?
  }

  /** The control pass can succeed from `s`: every directive names a first action and
      its pair can be bound. */
  predicate ControlsReady(s: Snapshot, controls: seq<Directive>) {
    Compiled(controls) && Bindable(s, ControlPairs(controls))
  }

  /** What makes parse succeed on a module with a view and a control: no list directive,
      a first action in every control directive, and state and control pairs that can
      all be bound from `s`. */
  predicate Parsable(s: Snapshot, ds: seq<Directive>) {
    OfFamily(ds, 'l') == [] && Compiled(OfFamily(ds, 'c'))
    && Bindable(s, StatePairs(OfFamily(ds, 's')) + ControlPairs(OfFamily(ds, 'c')))
  }

  /** Binding a pair leaves every other free pair free. */
  lemma BindFreeKept(a: Snapshot, b: Snapshot, binding: Binding)
    requires b.handlers == Bind(a.handlers, binding)
    ensures FreeKept(a, b, [(binding.element, binding.eventName)])
  {
  }

  /** With the same bindings, what is free stays free and what can be bound still can. */
  lemma SameHandlers(a: Snapshot, b: Snapshot, ps: seq<(nat, string)>)
    requires a.handlers == b.handlers
    ensures FreeKept(a, b, ps) && (Bindable(a, ps) ==> Bindable(b, ps))
  {
  }

  lemma FreeKeptChain(a: Snapshot, b: Snapshot, c: Snapshot, ps: seq<(nat, string)>, qs: seq<(nat, string)>)
    requires FreeKept(a, b, ps) && FreeKept(b, c, qs)
    ensures FreeKept(a, c, ps + qs)
  {
  }

  /** Taking a prefix of the pairs takes no more of them. */
  lemma FreeKeptPrefix(a: Snapshot, b: Snapshot, ps: seq<(nat, string)>, i: nat)
    requires i <= |ps| && FreeKept(a, b, ps[..i])
    ensures FreeKept(a, b, ps)
  {
    forall e: nat, n: string | Free(a, e, n) && (e, n) !in ps
      ensures Free(b, e, n)
    {
      assert (e, n) !in ps[..i];
    }
  }

  /** The first pairs of a bindable sequence are bindable, and once they are bound, so are
      the rest. */
  lemma BindableSplit(a: Snapshot, b: Snapshot, ps: seq<(nat, string)>, qs: seq<(nat, string)>)
    ensures Bindable(a, ps + qs) ==> Bindable(a, ps)
    ensures Bindable(a, ps + qs) && FreeKept(a, b, ps) ==> Bindable(b, qs)
  {
    if Bindable(a, ps + qs) {
      forall j | 0 <= j < |ps|
        ensures Trim(ps[j].1) != "" && Free(a, ps[j].0, ps[j].1)
      {
        assert ps[j] == (ps + qs)[j];
      }
      forall j, k | 0 <= j < k < |ps|
        ensures ps[j] != ps[k]
      {
        assert ps[j] == (ps + qs)[j] && ps[k] == (ps + qs)[k];
      }
      if FreeKept(a, b, ps) {
        forall k | 0 <= k < |qs|
          ensures Trim(qs[k].1) != "" && Free(b, qs[k].0, qs[k].1)
        {
          assert qs[k] == (ps + qs)[|ps| + k];
          forall j | 0 <= j < |ps|
            ensures ps[j] != qs[k]
          {
            assert ps[j] == (ps + qs)[j];
          }
        }
        forall j, k | 0 <= j < k < |qs|
          ensures qs[j] != qs[k]
        {
          assert qs[j] == (ps + qs)[|ps| + j] && qs[k] == (ps + qs)[|ps| + k];
        }
      }
    }
  }

  /** Binding the pairs one by one from `a` has reached `b` after the first `i`: no other
      pair was taken, and when all can be bound the rest are still free. */
  ghost predicate BoundSoFar(a: Snapshot, b: Snapshot, ps: seq<(nat, string)>, i: nat) {
    i <= |ps| && FreeKept(a, b, ps[..i])
    && (Bindable(a, ps) ==> forall j :: i <= j < |ps| ==> Free(b, ps[j].0, ps[j].1))
  }

  /** Nothing is bound yet. */
  lemma BoundNothing(a: Snapshot, ps: seq<(nat, string)>)
    ensures BoundSoFar(a, a, ps, 0)
  {
    SameHandlers(a, a, ps[..0]);
  }

  /** One more pair bound: the pairs taken so far grow by it, and the pairs still to
      come stay free because none of them is that pair. A failure at that pair
      leaves every pair outside `ps` free. */
  lemma BindStep(a: Snapshot, s0: Snapshot, s1: Snapshot, ps: seq<(nat, string)>, i: nat)
    requires i < |ps| && BoundSoFar(a, s0, ps, i) && FreeKept(s0, s1, [ps[i]])
    ensures BoundSoFar(a, s1, ps, i + 1) && FreeKept(a, s1, ps)
    ensures Bindable(a, ps) ==> Trim(ps[i].1) != "" && Free(s0, ps[i].0, ps[i].1)
  {
    FreeKeptChain(a, s0, s1, ps[..i], [ps[i]]);
    assert ps[..i] + [ps[i]] == ps[..i + 1];
    if Bindable(a, ps) {
      forall j | i + 1 <= j < |ps|
        ensures Free(s1, ps[j].0, ps[j].1)
      {
        assert ps[j] != ps[i] && ps[j] !in [ps[i]];
      }
    }
    FreeKeptPrefix(a, s1, ps, i + 1);
  }

  /** A render callback appended under `key` grows the snapshot and renders its element. */
  lemma AppendRenders(a: Snapshot, b: Snapshot, key: string, fn: RenderFn, c: Option<Closure>)
    requires b.closures == a.closures && b.handlers == a.handlers
    requires b.renderMap == a.renderMap[key := (if key in a.renderMap then a.renderMap[key] else []) + [fn]]
    requires fn.Bound?
    requires c.None? ==> fn.renderer.None?
    requires c.Some? ==> fn.renderer.Some? && fn.renderer.value < |a.closures| && a.closures[fn.renderer.value] == c.value
    ensures Grows(a, b) && Renders(b, key, fn.element, c)
  {
    var i := if key in a.renderMap then |a.renderMap[key]| else 0;
    assert RendersAt(b, key, i, fn.element, c);
  }

  // ---------------------------------------------------------------------------
  // What the passes do to the tree

  /** removeDirective(element, `${type}-${name}`). */
  function Unmark(n: Node, d: Directive): Node {
    RemoveDirective(n, d.element, [d.family] + "-" + d.name)
  }

  /** The tree after each directive of `ds`, in order, has had its attribute removed. */
  function Stripped(n: Node, ds: seq<Directive>): (r: Node)
    ensures r.Fragment? <==> n.Fragment?
    decreases |ds|
  {
    if ds == [] then n else Unmark(Stripped(n, ds[..|ds| - 1]), ds[|ds| - 1])
  }

  /** One more directive stripped. */
  lemma StrippedStep(n: Node, ds: seq<Directive>, i: nat)
    requires i < |ds|
    ensures Stripped(n, ds[..i + 1]) == Unmark(Stripped(n, ds[..i]), ds[i])
  {
    assert ds[..i + 1][..i] == ds[..i];
  }

  /** handleConditionalDirective for `d`, then its attribute removed. */
  function Condition(n: Node, d: Directive, itemContext: Value): Node {
    Unmark(SetDisplay(n, d.element, ConditionalDisplay(d.value, itemContext)), d)
  }

  /** The tree after the conditional directives of `ds`, in order. */
  function Conditioned(n: Node, ds: seq<Directive>, itemContext: Value): (r: Node)
    ensures r.Fragment? <==> n.Fragment?
    decreases |ds|
  {
    if ds == [] then n else Condition(Conditioned(n, ds[..|ds| - 1], itemContext), ds[|ds| - 1], itemContext)
  }

  /** The `f-` pass: each element shown or hidden by its condition, then its attribute
      removed. */
  method ConditionalPass(n: Node, ds: seq<Directive>, itemContext: Value) returns (r: Node)
    ensures r == Conditioned(n, ds, itemContext)
  {
    r := n;
    var i := 0;
    while i < |ds|
      invariant 0 <= i <= |ds|
      invariant r == Conditioned(n, ds[..i], itemContext)
    {
      assert ds[..i + 1][..i] == ds[..i];
      r := Condition(r, ds[i], itemContext);
      i := i + 1;
    }
    assert ds[..|ds|] == ds;
  }

  /** No directive of `ds` names the attribute, on its element, that `x` was collected from. */
  predicate Unmarked(x: Directive, ds: seq<Directive>) {
    forall k :: 0 <= k < |ds| ==> !(x.element == ds[k].element && AttrNameOf(x) == AttrNameOf(ds[k]))
  }

  /** Removing the attributes of `ds` adds no directive and leaves none of those. */
  lemma {:induction false} StrippedCollect(n: Node, ds: seq<Directive>)
    ensures forall x :: x in Collect(Stripped(n, ds)) ==> x in Collect(n) && Unmarked(x, ds)
    decreases |ds|
  {
    if ds != [] {
      var init := ds[..|ds| - 1];
      var d := ds[|ds| - 1];
      StrippedCollect(n, init);
      RemoveDirectiveCollect(Stripped(n, init), d.element, AttrNameOf(d));
      forall x | x in Collect(Stripped(n, ds))
        ensures x in Collect(n) && Unmarked(x, ds)
      {
        forall k | 0 <= k < |ds|
          ensures !(x.element == ds[k].element && AttrNameOf(x) == AttrNameOf(ds[k]))
        {
          if k < |ds| - 1 {
            assert ds[k] == init[k];
          }
        }
      }
    }
  }

  /** The conditional pass sets displays, which change no attribute, and removes the
      `f-` attributes of `ds`: the same as stripping them. */
  lemma {:induction false} ConditionedCollect(n: Node, ds: seq<Directive>, itemContext: Value)
    ensures forall x :: x in Collect(Conditioned(n, ds, itemContext)) ==> x in Collect(n) && Unmarked(x, ds)
    decreases |ds|
  {
    if ds != [] {
      var init := ds[..|ds| - 1];
      var d := ds[|ds| - 1];
      var t := Conditioned(n, init, itemContext);
      ConditionedCollect(n, init, itemContext);
      SetDisplayCollect(t, d.element, ConditionalDisplay(d.value, itemContext));
      RemoveDirectiveCollect(SetDisplay(t, d.element, ConditionalDisplay(d.value, itemContext)), d.element, AttrNameOf(d));
      forall x | x in Collect(Conditioned(n, ds, itemContext))
        ensures x in Collect(n) && Unmarked(x, ds)
      {
        forall k | 0 <= k < |ds|
          ensures !(x.element == ds[k].element && AttrNameOf(x) == AttrNameOf(ds[k]))
        {
          if k < |ds| - 1 {
            assert ds[k] == init[k];
          }
        }
      }
    }
  }

  /** The tree the passes of parse leave when there is no list directive: the state,
      view and control attributes stripped, then the conditional pass. */
  function ParsedTree(keyed: Node): Node {
    var ds := Collect(keyed);
    Conditioned(Stripped(Stripped(Stripped(keyed, OfFamily(ds, 's')), OfFamily(ds, 'v')),
                         OfFamily(ds, 'c')), OfFamily(ds, 'f'), Undefined)
  }

  /** A directive is marked by any list it belongs to. */
  lemma MarkedByMember(x: Directive, ds: seq<Directive>)
    requires x in ds
    ensures !Unmarked(x, ds)
  {
    var k :| 0 <= k < |ds| && ds[k] == x;
  }

  /** Without list directives, a collected directive is a state, view, control or
      conditional one. */
  lemma HandledFamily(n: Node, x: Directive)
    requires x in Collect(n) && OfFamily(Collect(n), 'l') == []
    ensures x in OfFamily(Collect(n), 's') || x in OfFamily(Collect(n), 'v')
         || x in OfFamily(Collect(n), 'c') || x in OfFamily(Collect(n), 'f')
  {
    CollectWellFormed(n);
    var k :| 0 <= k < |Collect(n)| && Collect(n)[k] == x;
    assert IsFamily(x.family);
    OfFamilyMembers(Collect(n), x.family);
  }

  /** Every directive attribute is removed once handled, so re-parsing the tree parse
      leaves collects nothing, as collecting from the fully stripped tree does. */
  lemma ParsedCollectsNothing(keyed: Node)
    requires OfFamily(Collect(keyed), 'l') == []
    ensures Collect(ParsedTree(keyed)) == [] == Collect(Strip(keyed))
  {
    var ds := Collect(keyed);
    var ss, vs, cs, fs := OfFamily(ds, 's'), OfFamily(ds, 'v'), OfFamily(ds, 'c'), OfFamily(ds, 'f');
    var t1 := Stripped(keyed, ss);
    var t2 := Stripped(t1, vs);
    var t3 := Stripped(t2, cs);
    var t4 := Conditioned(t3, fs, Undefined);
    assert ParsedTree(keyed) == t4;
    StripCollectsNothing(keyed);
    if Collect(t4) != [] {
      var x := Collect(t4)[0];
      ConditionedCollect(t3, fs, Undefined);
      assert x in Collect(t3) && Unmarked(x, fs);
      StrippedCollect(t2, cs);
      assert x in Collect(t2) && Unmarked(x, cs);
      StrippedCollect(t1, vs);
      assert x in Collect(t1) && Unmarked(x, vs);
      StrippedCollect(keyed, ss);
      assert x in ds && Unmarked(x, ss);
      HandledFamily(keyed, x);
      if x in ss {
        MarkedByMember(x, ss);
      } else if x in vs {
        MarkedByMember(x, vs);
      } else if x in cs {
        MarkedByMember(x, cs);
      } else {
        MarkedByMember(x, fs);
      }
    }
  }

  /** The view's members that `renderer.call(module, context, element)` cannot run: its
      two fields are not functions, and each of its methods but the two element renderers
      reaches `this.renderMap` or `this.registerRender`, which the module lacks. */
  const UncallableViewMembers: set<string> :=
    {"state", "renderMap", "bindRenderToElement", "registerRender", "removeRenderForKey",
     "unregisterRender", "unbindAll"}

  /** The members the render table inherits that the same call cannot run: `__proto__` is
      an object, and `__defineGetter__` and `__defineSetter__` refuse the element as an
      accessor because it is not a function. */
  const UncallableInheritedMembers: set<string> := {"__proto__", "__defineGetter__", "__defineSetter__"}

  /** `renderer.call(module, context, element)` throws a TypeError for this renderer: a
      truthy module property that is not a function, or one of the proxy's answers above. */
  predicate CallThrows(t: RenderTarget, host: Host) {
    match t
    case OwnMember(name) => name in host && host[name].Data?
    case ProxyEntry(entry) =>
      (entry.ViewMember? && entry.member in UncallableViewMembers)
      || (entry.InheritedMember? && entry.member in UncallableInheritedMembers)
  }

  /** `element.textContent = value ?? ''` on the element with that id. */
  function SetTextContent(n: Node, element: nat, value: Value): (r: Node)
    ensures r.Fragment? <==> n.Fragment?
  {
    ReplaceChildren(n, element, [Text(if IsNullish(value) then "" else Stringify(value))])
  }

  /** The list callback's re-render reads the state under `${key}-handleListDirective`
      when the new value is not an array. */
  function RerenderSource(key: string, updatedValue: Value, store: map<string, Value>): Result<seq<Value>> {
    ListSource(updatedValue, GetProp(Obj(store), key + "-handleListDirective"))
  }

  /** As written, a re-render with a value that is not an array renders no items unless
      the store happens to hold the suffixed key. */
  lemma RerenderWithoutArrayIsEmpty(key: string, updatedValue: Value, store: map<string, Value>)
    requires !updatedValue.Arr? && key + "-handleListDirective" !in store
    ensures RerenderSource(key, updatedValue, store) == Ok([])
  {
  }

  /** The template element an `l-` directive names and its parent element, when the
      directive names a template that has one; otherwise the directive does nothing. */
  function ListTarget(n: Node, element: nat): (r: Option<(Node, Node)>)
    ensures r.Some? ==> r.value.0.Element? && r.value.0.id == element && r.value.0.tag == "template"
    ensures r.Some? ==> r.value.1.Element? && ParentOf(n, element) == Some(r.value.1.id)
  {
    var t := Find(n, element);
    var p := ParentOf(n, element);
    if t.None? || t.value.tag != "template" || p.None? then None
    else
      var c := Find(n, p.value);
      if c.None? then None else Some((t.value, c.value))
  }

  /** Replacing a container's children twice leaves the second set. */
  lemma {:induction false} ReplaceChildrenTwice(n: Node, c: nat, first: seq<Node>, second: seq<Node>)
    ensures ReplaceChildren(ReplaceChildren(n, c, first), c, second) == ReplaceChildren(n, c, second)
    decreases n, 1
  {
    match n
    case Element(id, tag, attrs, display, children, content) =>
      if id != c { ReplaceChildrenAllTwice(children, c, first, second); }
    case Fragment(children) => ReplaceChildrenAllTwice(children, c, first, second);
    case Text(_) =>
  }

  lemma {:induction false} ReplaceChildrenAllTwice(ns: seq<Node>, c: nat, first: seq<Node>, second: seq<Node>)
    ensures ReplaceChildrenAll(ReplaceChildrenAll(ns, c, first), c, second) == ReplaceChildrenAll(ns, c, second)
    decreases ns, 0
  {
    if ns != [] {
      ReplaceChildrenTwice(ns[0], c, first, second);
      ReplaceChildrenAllTwice(ns[1..], c, first, second);
      var once := ReplaceChildrenAll(ns, c, first);
      assert once[0] == ReplaceChildren(ns[0], c, first) && once[1..] == ReplaceChildrenAll(ns[1..], c, first);
    }
  }

  /** One more compiled control directive extends the compiled prefix. */
  lemma CompiledPrefixStep(ds: seq<Directive>, i: nat)
    requires i < |ds| && CompileControl(ds[i].value).Ok?
    requires Compiled(ds[..i])
    ensures Compiled(ds[..i + 1])
  {
    assert ds[..i + 1] == ds[..i] + [ds[i]];
  }

  /** The `s-` pass has handled the first `i` directives of `ds`, going from the snapshot
      `start` to `cur` and from the tree `n` to `r`: they are wired, their attributes are
      gone, and no pair outside them has been taken. */
  ghost predicate StatesDone(start: Snapshot, cur: Snapshot, n: Node, ds: seq<Directive>, i: nat,
                             itemContext: Option<Value>, r: Node) {
    i <= |ds| && Grows(start, cur) && r == Stripped(n, ds[..i])
    && StatesWired(cur, ds[..i], itemContext) && BoundSoFar(start, cur, StatePairs(ds), i)
  }

  /** The same for the `c-` pass; at the top level each handled directive also names a
      first action. */
  ghost predicate ControlsDone(start: Snapshot, cur: Snapshot, n: Node, ds: seq<Directive>, i: nat,
                               itemContext: Option<Value>, r: Node) {
    i <= |ds| && Grows(start, cur) && r == Stripped(n, ds[..i])
    && ControlsWired(cur, ds[..i], itemContext) && (itemContext.None? ==> Compiled(ds[..i]))
    && BoundSoFar(start, cur, ControlPairs(ds), i)
  }

  /** A pass that has handled every directive has wired all of them. */
  lemma PassDone(start: Snapshot, cur: Snapshot, n: Node, ds: seq<Directive>, itemContext: Option<Value>, r: Node)
    ensures StatesDone(start, cur, n, ds, |ds|, itemContext, r) ==>
      r == Stripped(n, ds) && StatesWired(cur, ds, itemContext) && FreeKept(start, cur, StatePairs(ds))
    ensures ControlsDone(start, cur, n, ds, |ds|, itemContext, r) ==>
      r == Stripped(n, ds) && ControlsWired(cur, ds, itemContext) && FreeKept(start, cur, ControlPairs(ds))
      && (itemContext.None? ==> Compiled(ds))
  {
    assert ds[..|ds|] == ds;
    assert StatePairs(ds)[..|ds|] == StatePairs(ds);
    assert ControlPairs(ds)[..|ds|] == ControlPairs(ds);
  }

  class ModuleDirectiveParser {
    /** The module whose operations the directives are bound with. */
    const owner: Module
    /** The module's own properties, which `this.module[name]` reads. */
    const host: Host
    /** The module's tree. */
    var root: Node
    /** The functions the parser has made, by the id the module knows them by. */
    var closures: seq<Closure>
    /** The identity the next cloned element receives. */
    var nextId: nat
    /** The renderer calls made for view directives inside list items. */
    var renderCalls: seq<RenderCall>

    /** The objects of the module the parser may change: its view, store and control. */
    ghost const frame: set<object>

    ghost predicate Valid()
      reads owner, frame
    {
      this !in frame && owner !in frame && owner.Parts() <= frame
      && owner.Valid()
    }

    ghost function Snap(): Snapshot
      requires Valid()
      reads this`closures, owner, frame
    {
      Snapshot(closures,
               if owner.control.Some? then owner.control.value.handlers else map[],
               if owner.view.Some? then owner.view.value.renderMap else map[])
    }

    /** The parser over a module and its tree: the elements are distinct, so their ids
        are, and clones are numbered from `firstCloneId`, above every id in the tree. */
    constructor (m: Module, h: Host, rootElement: Node, firstCloneId: nat)
      requires m.Valid()
      requires FreshBelow(rootElement, firstCloneId)
      ensures Valid() && owner == m && host == h && root == rootElement && frame == m.Parts()
      ensures closures == [] && nextId == firstCloneId && renderCalls == []
      ensures FreshBelow(root, nextId)
    {
      owner := m;
      host := h;
      root := rootElement;
      frame := m.Parts();
      closures := [];
      nextId := firstCloneId;
      renderCalls := [];
    }

    /** Record a new function and return the id the module will see. */
    method NewClosure(c: Closure) returns (fid: nat)
      requires Valid()
      modifies this
      ensures Valid() && Grows(old(Snap()), Snap())
      ensures fid == |old(closures)| && closures == old(closures) + [c]
      ensures root == old(root) && nextId == old(nextId) && renderCalls == old(renderCalls)
    {
      fid := |closures|;
      closures := closures + [c];
    }

    /** `this.owner.view.bindRenderToElement(key, element, fn)` with a new function; a
        module without a view throws. */
    method BindRender(key: string, element: nat, c: Closure) returns (o: Outcome)
      requires Valid()
      modifies this, frame
      ensures Valid() && Grows(old(Snap()), Snap())
      ensures root == old(root) && nextId == old(nextId) && renderCalls == old(renderCalls)
      ensures Snap().handlers == old(Snap()).handlers
      ensures o.Fail? <==> owner.view.None?
      ensures o.Fail? ==> o.error == TypeError
      ensures o.Pass? ==> Renders(Snap(), key, element, Some(c))
    {
      var fid := NewClosure(c);
      if owner.view.None? {
        return Fail(TypeError);
      }
      var view := owner.view.value;
      ghost var s1 := Snap();
      ghost var serial := view.nextSerial;
      view.BindRenderToElement(key, element, Some(fid));
      AppendRenders(s1, Snap(), key, Bound(serial, element, Some(fid)), Some(c));
      GrowsTransitive(old(Snap()), s1, Snap());
      o := Pass;
    }

    /** `this.module.bindEvent(element, eventName, fn)` with a new function. */
    method BindListener(element: nat, eventName: string, c: Closure) returns (o: Outcome)
      requires Valid()
      modifies this, frame
      ensures Valid() && Grows(old(Snap()), Snap())
      ensures root == old(root) && nextId == old(nextId) && renderCalls == old(renderCalls)
      ensures owner.control.None? ==> o == Fail(TypeError)
      ensures owner.control.Some? ==> (o.Pass? <==> Trim(eventName) != "" && Free(old(Snap()), element, eventName))
      ensures FreeKept(old(Snap()), Snap(), [(element, eventName)])
      ensures o.Pass? ==> Wired(Snap(), element, eventName, c)
    {
      var fid := NewClosure(c);
      ghost var s1 := Snap();
      ghost var serial := if owner.control.Some? then owner.control.value.nextSerial else 0;
      o := owner.BindEvent(Some(element), Str(eventName), Func(fid, false));
      if o.Pass? {
        BindKeeps(s1.handlers, Binding(serial, element, eventName, fid));
        BindFreeKept(s1, Snap(), Binding(serial, element, eventName, fid));
      } else {
        SameHandlers(s1, Snap(), [(element, eventName)]);
      }
    }

    /** `this.module.bindState(key, element)`: the key renders into the element as text. */
    method BindText(key: string, element: nat) returns (o: Outcome)
      requires Valid()
      modifies this, frame
      ensures Valid() && Grows(old(Snap()), Snap())
      ensures root == old(root) && nextId == old(nextId) && renderCalls == old(renderCalls)
      ensures Snap().handlers == old(Snap()).handlers
      ensures o.Fail? <==> owner.view.None?
      ensures o.Fail? ==> o.error == TypeError
      ensures o.Pass? ==> Renders(Snap(), key, element, None)
    {
      ghost var serial := if owner.view.Some? then owner.view.value.nextSerial else 0;
      o := owner.BindState(key, element);
      if o.Pass? {
        AppendRenders(old(Snap()), Snap(), key, Bound(serial, element, None), None);
      }
    }

    /** handleStateDirective, and handleStateDirectiveWithContext when an item context is
        given: tokenize the chain, bindState, then bind the event before the first `|`. */
    method HandleState(element: nat, stateName: string, eventName: string, itemContext: Option<Value>)
      returns (o: Outcome)
      requires Valid()
      modifies this, frame
      ensures Valid() && Grows(old(Snap()), Snap())
      ensures root == old(root) && nextId == old(nextId) && renderCalls == old(renderCalls)
      ensures owner.view.None? ==> o == Fail(TypeError)
      ensures owner.view.Some? && owner.control.Some? ==>
        (o.Pass? <==> Trim(BoundEventName(eventName)) != "" && Free(old(Snap()), element, BoundEventName(eventName)))
      ensures FreeKept(old(Snap()), Snap(), [(element, BoundEventName(eventName))])
      ensures o.Pass? ==> StateWired(Snap(), element, stateName, eventName, itemContext)
    {
      var stages := TokenizeStateChain(eventName);
      ghost var s0 := Snap();
      o := BindText(stateName, element);
      if o.Fail? {
        SameHandlers(s0, Snap(), [(element, BoundEventName(eventName))]);
        return;
      }
      ghost var s1 := Snap();
      o := BindListener(element, BoundEventName(eventName), StateHandler(stateName, stages, itemContext));
      GrowsTransitive(s0, s1, Snap());
      KeepsRenders(s1, Snap(), stateName, element, None);
      SameHandlers(s0, s1, []);
      FreeKeptChain(s0, s1, Snap(), [], [(element, BoundEventName(eventName))]);
      assert [] + [(element, BoundEventName(eventName))] == [(element, BoundEventName(eventName))];
    }

    /** handleControlDirective, and handleControlDirectiveWithContext when an item
        context is given: the top-level form refuses a value with no first action before
        binding anything; both bind the event to the directive's reading. */
    method HandleControl(element: nat, eventName: string, directiveValue: string, itemContext: Option<Value>)
      returns (o: Outcome)
      requires Valid()
      modifies this, frame
      ensures Valid() && Grows(old(Snap()), Snap())
      ensures root == old(root) && nextId == old(nextId) && renderCalls == old(renderCalls)
      ensures itemContext.None? && ControlReading(directiveValue).firstAction == "" ==>
        o == Fail(MinimumOneHandler) && Snap() == old(Snap())
      ensures owner.control.None? && !(itemContext.None? && ControlReading(directiveValue).firstAction == "") ==>
        o == Fail(TypeError)
      ensures owner.control.Some? && !(itemContext.None? && ControlReading(directiveValue).firstAction == "") ==>
        (o.Pass? <==> Trim(eventName) != "" && Free(old(Snap()), element, eventName))
      ensures FreeKept(old(Snap()), Snap(), [(element, eventName)])
      ensures o.Pass? ==> ControlWired(Snap(), element, eventName, directiveValue, itemContext)
    {
      if itemContext.None? {
        var compiled := CompileControl(directiveValue);
        if compiled.Err? {
          SameHandlers(Snap(), Snap(), [(element, eventName)]);
          return Fail(compiled.error);
        }
      }
      o := BindListener(element, eventName, ControlHandler(ControlReading(directiveValue), itemContext));
    }

    /** handleViewDirective: the state key renders through a callback that looks the
        renderer up by name each time. */
    method HandleView(element: nat, stateName: string, renderFnName: string) returns (o: Outcome)
      requires Valid()
      modifies this, frame
      ensures Valid() && Grows(old(Snap()), Snap())
      ensures root == old(root) && nextId == old(nextId) && renderCalls == old(renderCalls)
      ensures Snap().handlers == old(Snap()).handlers
      ensures o.Fail? <==> owner.view.None?
      ensures o.Fail? ==> o.error == TypeError
      ensures o.Pass? ==> ViewWired(Snap(), element, stateName, renderFnName)
    {
      o := BindRender(stateName, element, ViewRenderFn(renderFnName));
    }

    /** `this.module[name] || this.module.render[name]`: never nothing, because the
        render proxy answers every name. */
    function Target(renderFnName: string): (t: RenderTarget)
      reads owner
      ensures t.OwnMember? <==> IsTruthyMember(host, renderFnName)
      ensures t.ProxyEntry? ==> t.entry == owner.Renderer(renderFnName)
    {
      if IsTruthyMember(host, renderFnName) then OwnMember(renderFnName)
      else ProxyEntry(owner.Renderer(renderFnName))
    }

    /** The renderer found is the default one, which writes the value as text. */
    predicate FallsBackToText(renderFnName: string)
      reads owner
    {
      Target(renderFnName) == ProxyEntry(DefaultRenderer(renderFnName))
    }

    /** The value is written as text exactly when no lookup on the way answers the name:
        not the module's own truthy member, not an assigned renderer, not a member
        inherited by the render table, and not a member of the view. */
    lemma TextFallbackExactly(renderFnName: string)
      ensures FallsBackToText(renderFnName) <==>
        !IsTruthyMember(host, renderFnName)
        && !(renderFnName in owner.renderers && Truthy(owner.renderers[renderFnName]))
        && renderFnName !in ObjectPrototypeMembers
        && !(owner.view.Some? && renderFnName in ViewMembers)
    {
    }

    /** A renderer of that name was assigned to the module. */
    predicate Assigned(renderFnName: string)
      reads owner
    {
      renderFnName in owner.renderers && Truthy(owner.renderers[renderFnName])
    }

    /** The renderer found for the name cannot be called on the module. */
    predicate Uncallable(renderFnName: string)
      reads owner
    {
      CallThrows(Target(renderFnName), host)
    }

    /** The call throws exactly for a truthy non-function property of the module or,
        when the module has none, for an uncallable inherited member that no assigned
        renderer shadows, or for an uncallable view member that neither an assigned
        renderer nor an inherited member shadows. */
    lemma UncallableExactly(renderFnName: string)
      ensures Uncallable(renderFnName) <==>
        (IsTruthyMember(host, renderFnName) && host[renderFnName].Data?)
        || (!IsTruthyMember(host, renderFnName) && !Assigned(renderFnName)
            && renderFnName in UncallableInheritedMembers)
        || (!IsTruthyMember(host, renderFnName) && !Assigned(renderFnName)
            && renderFnName !in ObjectPrototypeMembers && owner.view.Some?
            && renderFnName in UncallableViewMembers)
    {
      assert UncallableInheritedMembers <= ObjectPrototypeMembers;
      assert UncallableViewMembers <= ViewMembers;
    }

    /** With a view and no property or assigned renderer of these names,
        `v-x="renderMap"`, `v-x="state"` and `v-x="__proto__"` in an item throw. */
    lemma ViewFieldsUncallable()
      requires owner.view.Some?
      requires !IsTruthyMember(host, "renderMap") && !Assigned("renderMap")
      requires !IsTruthyMember(host, "state") && !Assigned("state")
      requires !IsTruthyMember(host, "__proto__") && !Assigned("__proto__")
      ensures Uncallable("renderMap") && Uncallable("state") && Uncallable("__proto__")
    {
      assert "renderMap" !in ObjectPrototypeMembers && "state" !in ObjectPrototypeMembers;
      assert "__proto__" in ObjectPrototypeMembers;
    }

    /** The tree after handleViewDirectiveWithContext for `d` and its attribute removal. */
    function ViewInItem(n: Node, d: Directive, itemContext: Value): (r: Node)
      reads owner
      ensures r.Fragment? <==> n.Fragment?
    {
      Unmark(if FallsBackToText(d.value) then SetTextContent(n, d.element, itemContext) else n, d)
    }

    function Viewed(n: Node, ds: seq<Directive>, itemContext: Value): (r: Node)
      reads owner
      ensures r.Fragment? <==> n.Fragment?
      decreases |ds|
    {
      if ds == [] then n else ViewInItem(Viewed(n, ds[..|ds| - 1], itemContext), ds[|ds| - 1], itemContext)
    }

    /** The renderer calls the view directives of a list item make, in order. */
    function ViewCalls(ds: seq<Directive>, itemContext: Value): (calls: seq<RenderCall>)
      reads owner
      ensures |calls| == |ds|
      ensures forall j :: 0 <= j < |ds| ==> calls[j] == RenderCall(Target(ds[j].value), itemContext, ds[j].element)
      decreases |ds|
    {
      if ds == [] then []
      else ViewCalls(ds[..|ds| - 1], itemContext) + [RenderCall(Target(ds[|ds| - 1].value), itemContext, ds[|ds| - 1].element)]
    }

    /** One more view directive of a list item handled. */
    lemma ItemViewStep(n: Node, ds: seq<Directive>, i: nat, itemContext: Value, before: seq<RenderCall>)
      requires i < |ds|
      requires forall j :: 0 <= j < i ==> !Uncallable(ds[j].value)
      requires !Uncallable(ds[i].value)
      ensures forall j :: 0 <= j < i + 1 ==> !Uncallable(ds[j].value)
      ensures Viewed(n, ds[..i + 1], itemContext) == ViewInItem(Viewed(n, ds[..i], itemContext), ds[i], itemContext)
      ensures (before + ViewCalls(ds[..i], itemContext)) + [RenderCall(Target(ds[i].value), itemContext, ds[i].element)]
                == before + ViewCalls(ds[..i + 1], itemContext)
    {
      assert ds[..i + 1][..i] == ds[..i];
    }

    /** handleViewDirectiveWithContext: the renderer is called at once with the whole item
        context; a renderer that cannot be called on the module throws. */
    method HandleViewInItem(n: Node, element: nat, renderFnName: string, itemContext: Value)
      returns (o: Outcome, r: Node)
      requires Valid()
      modifies this
      ensures Valid() && Snap() == old(Snap())
      ensures root == old(root) && nextId == old(nextId)
      ensures o.Fail? <==> Uncallable(renderFnName)
      ensures o.Fail? ==> o.error == TypeError && renderCalls == old(renderCalls)
      ensures o.Pass? ==> renderCalls == old(renderCalls) + [RenderCall(Target(renderFnName), itemContext, element)]
      ensures o.Pass? && FallsBackToText(renderFnName) ==> r == SetTextContent(n, element, itemContext)
      ensures o.Pass? && !FallsBackToText(renderFnName) ==> r == n
    {
      if Uncallable(renderFnName) {
        return Fail(TypeError), n;
      }
      renderCalls := renderCalls + [RenderCall(Target(renderFnName), itemContext, element)];
      r := if FallsBackToText(renderFnName) then SetTextContent(n, element, itemContext) else n;
      o := Pass;
    }

    /** The `i`-th directive of the `s-` pass handled and its attribute removed. */
    method StateStep(ghost start: Snapshot, n: Node, ds: seq<Directive>, i: nat, itemContext: Option<Value>, r: Node)
      returns (o: Outcome, r': Node)
      requires Valid() && i < |ds| && StatesDone(start, Snap(), n, ds, i, itemContext, r)
      modifies this, frame
      ensures Valid() && Grows(start, Snap())
      ensures root == old(root) && nextId == old(nextId) && renderCalls == old(renderCalls)
      ensures owner.view.None? ==> o == Fail(TypeError)
      ensures owner.view.Some? && owner.control.Some? && Bindable(start, StatePairs(ds)) ==> o.Pass?
      ensures FreeKept(start, Snap(), StatePairs(ds))
      ensures o.Pass? ==> StatesDone(start, Snap(), n, ds, i + 1, itemContext, r')
    {
      ghost var s0 := Snap();
      o := HandleState(ds[i].element, ds[i].name, ds[i].value, itemContext);
      BindStep(start, s0, Snap(), StatePairs(ds), i);
      r' := r;
      if o.Pass? {
        KeepsStates(s0, Snap(), ds, i, itemContext);
        StrippedStep(n, ds, i);
        r' := Unmark(r, ds[i]);
      }
      GrowsTransitive(start, s0, Snap());
    }

    /** The `s-` pass: each directive handled in order, then its attribute removed. */
    method StatePass(n: Node, ds: seq<Directive>, itemContext: Option<Value>) returns (o: Outcome, r: Node)
      requires Valid()
      modifies this, frame
      ensures Valid() && Grows(old(Snap()), Snap())
      ensures root == old(root) && nextId == old(nextId) && renderCalls == old(renderCalls)
      ensures owner.view.None? && ds != [] ==> o == Fail(TypeError)
      ensures owner.view.Some? && owner.control.Some? && Bindable(old(Snap()), StatePairs(ds)) ==> o.Pass?
      ensures FreeKept(old(Snap()), Snap(), StatePairs(ds))
      ensures o.Pass? ==> r == Stripped(n, ds)
      ensures o.Pass? ==> StatesWired(Snap(), ds, itemContext)
    {
      o, r := Pass, n;
      ghost var start := Snap();
      BoundNothing(start, StatePairs(ds));
      var i := 0;
      while i < |ds|
        invariant Valid() && StatesDone(start, Snap(), n, ds, i, itemContext, r)
        invariant root == old(root) && nextId == old(nextId) && renderCalls == old(renderCalls)
        invariant owner.view.None? ==> i == 0
        invariant o == Pass
      {
        o, r := StateStep(start, n, ds, i, itemContext, r);
        if o.Fail? {
          return;
        }
        i := i + 1;
      }
      PassDone(start, Snap(), n, ds, itemContext, r);
    }

    /** The `i`-th directive of the `c-` pass handled and its attribute removed. */
    method ControlStep(ghost start: Snapshot, n: Node, ds: seq<Directive>, i: nat, itemContext: Option<Value>, r: Node)
      returns (o: Outcome, r': Node)
      requires Valid() && i < |ds| && ControlsDone(start, Snap(), n, ds, i, itemContext, r)
      modifies this, frame
      ensures Valid() && Grows(start, Snap())
      ensures root == old(root) && nextId == old(nextId) && renderCalls == old(renderCalls)
      ensures (owner.control.Some? && (itemContext.None? ==> Compiled(ds))
               && Bindable(start, ControlPairs(ds))) ==> o.Pass?
      ensures FreeKept(start, Snap(), ControlPairs(ds))
      ensures o.Pass? ==> ControlsDone(start, Snap(), n, ds, i + 1, itemContext, r')
    {
      ghost var s0 := Snap();
      o := HandleControl(ds[i].element, ds[i].name, ds[i].value, itemContext);
      BindStep(start, s0, Snap(), ControlPairs(ds), i);
      r' := r;
      if o.Pass? {
        KeepsControls(s0, Snap(), ds, i, itemContext);
        if itemContext.None? {
          CompiledPrefixStep(ds, i);
        }
        StrippedStep(n, ds, i);
        r' := Unmark(r, ds[i]);
      }
      GrowsTransitive(start, s0, Snap());
    }

    /** The `c-` pass. */
    method ControlPass(n: Node, ds: seq<Directive>, itemContext: Option<Value>) returns (o: Outcome, r: Node)
      requires Valid()
      modifies this, frame
      ensures Valid() && Grows(old(Snap()), Snap())
      ensures root == old(root) && nextId == old(nextId) && renderCalls == old(renderCalls)
      ensures owner.control.Some? && (itemContext.None? ==> Compiled(ds)) && Bindable(old(Snap()), ControlPairs(ds)) ==>
        o.Pass?
      ensures FreeKept(old(Snap()), Snap(), ControlPairs(ds))
      ensures o.Pass? ==> r == Stripped(n, ds)
      ensures o.Pass? ==> ControlsWired(Snap(), ds, itemContext)
      ensures o.Pass? && itemContext.None? ==> Compiled(ds)
    {
      o, r := Pass, n;
      ghost var start := Snap();
      BoundNothing(start, ControlPairs(ds));
      var i := 0;
      while i < |ds|
        invariant Valid() && ControlsDone(start, Snap(), n, ds, i, itemContext, r)
        invariant root == old(root) && nextId == old(nextId) && renderCalls == old(renderCalls)
        invariant o == Pass
      {
        o, r := ControlStep(start, n, ds, i, itemContext, r);
        if o.Fail? {
          return;
        }
        i := i + 1;
      }
      PassDone(start, Snap(), n, ds, itemContext, r);
    }

    /** The top-level `v-` pass. */
    method ViewPass(n: Node, ds: seq<Directive>) returns (o: Outcome, r: Node)
      requires Valid()
      modifies this, frame
      ensures Valid() && Grows(old(Snap()), Snap())
      ensures root == old(root) && nextId == old(nextId) && renderCalls == old(renderCalls)
      ensures Snap().handlers == old(Snap()).handlers
      ensures o.Fail? <==> owner.view.None? && ds != []
      ensures o.Fail? ==> o.error == TypeError
      ensures o.Pass? ==> r == Stripped(n, ds)
      ensures o.Pass? ==> ViewsWired(Snap(), ds)
    {
      o, r := Pass, n;
      var i := 0;
      while i < |ds|
        invariant 0 <= i <= |ds|
        invariant Valid() && Grows(old(Snap()), Snap()) && Snap().handlers == old(Snap()).handlers
        invariant root == old(root) && nextId == old(nextId) && renderCalls == old(renderCalls)
        invariant owner.view.None? ==> i == 0
        invariant o == Pass && r == Stripped(n, ds[..i])
        invariant forall j :: 0 <= j < i ==> ViewWired(Snap(), ds[j].element, ds[j].name, ds[j].value)
      {
        ghost var s0 := Snap();
        o := HandleView(ds[i].element, ds[i].name, ds[i].value);
        if o.Fail? {
          return;
        }
        KeepsViews(s0, Snap(), ds, i);
        GrowsTransitive(old(Snap()), s0, Snap());
        StrippedStep(n, ds, i);
        r := Unmark(r, ds[i]);
        i := i + 1;
      }
      assert ds[..|ds|] == ds;
    }

    /** One view directive of a list item: handleViewDirectiveWithContext, then its
        attribute removed. */
    method ViewOneInItem(n: Node, d: Directive, itemContext: Value) returns (o: Outcome, r: Node)
      requires Valid()
      modifies this
      ensures Valid() && Snap() == old(Snap())
      ensures root == old(root) && nextId == old(nextId)
      ensures o.Fail? <==> Uncallable(d.value)
      ensures o.Fail? ==> o.error == TypeError
      ensures o.Pass? ==>
        (r == ViewInItem(n, d, itemContext)
         && renderCalls == old(renderCalls) + [RenderCall(Target(d.value), itemContext, d.element)])
    {
      var t;
      o, t := HandleViewInItem(n, d.element, d.value, itemContext);
      r := if o.Pass? then Unmark(t, d) else n;
    }

    /** The `v-` pass inside a list item. */
    method ItemViewPass(n: Node, ds: seq<Directive>, itemContext: Value) returns (o: Outcome, r: Node)
      requires Valid()
      modifies this
      ensures Valid() && Snap() == old(Snap())
      ensures root == old(root) && nextId == old(nextId)
      ensures o.Pass? <==> forall j :: 0 <= j < |ds| ==> !Uncallable(ds[j].value)
      ensures o.Fail? ==> o.error == TypeError
      ensures o.Pass? ==> r == Viewed(n, ds, itemContext) && renderCalls == old(renderCalls) + ViewCalls(ds, itemContext)
    {
      o, r := Pass, n;
      var i := 0;
      while i < |ds|
        invariant 0 <= i <= |ds|
        invariant Valid() && Snap() == old(Snap())
        invariant root == old(root) && nextId == old(nextId)
        invariant forall j :: 0 <= j < i ==> !Uncallable(ds[j].value)
        invariant o == Pass && r == Viewed(n, ds[..i], itemContext)
        invariant renderCalls == old(renderCalls) + ViewCalls(ds[..i], itemContext)
      {
        var r';
        o, r' := ViewOneInItem(r, ds[i], itemContext);
        if o.Fail? {
          return;
        }
        ItemViewStep(n, ds, i, itemContext, old(renderCalls));
        r := r';
        i := i + 1;
      }
      assert ds[..|ds|] == ds;
    }

    /** The control pass and then the state pass over a copy of the template, with the
        item context. */
    method NestedBindings(n: Node, controls: seq<Directive>, states: seq<Directive>, itemContext: Value)
      returns (o: Outcome, r: Node)
      requires Valid()
      modifies this, frame
      ensures Valid() && Grows(old(Snap()), Snap())
      ensures root == old(root) && nextId == old(nextId) && renderCalls == old(renderCalls)
      ensures o.Pass? ==> r == Stripped(Stripped(n, controls), states)
      ensures o.Pass? ==> ControlsWired(Snap(), controls, Some(itemContext))
      ensures o.Pass? ==> StatesWired(Snap(), states, Some(itemContext))
    {
      o, r := ControlPass(n, controls, Some(itemContext));
      if o.Fail? {
        return;
      }
      ghost var s1 := Snap();
      o, r := StatePass(r, states, Some(itemContext));
      if o.Fail? {
        return;
      }
      ControlsStay(s1, Snap(), controls, Some(itemContext));
      GrowsTransitive(old(Snap()), s1, Snap());
    }

    /** processNestedDirectives: the directives of a fresh copy of the template, in the
        order view, conditional, control, state, each with the item context. */
    method ProcessNested(n: Node, itemContext: Value) returns (o: Outcome, r: Node)
      requires Valid()
      modifies this, frame
      ensures Valid() && Grows(old(Snap()), Snap())
      ensures root == old(root) && nextId == old(nextId)
      ensures o.Pass? ==> (r.Fragment? <==> n.Fragment?)
      ensures var ds := Collect(n); o.Pass? ==>
        r == Stripped(Stripped(Conditioned(Viewed(n, OfFamily(ds, 'v'), itemContext), OfFamily(ds, 'f'), itemContext),
                               OfFamily(ds, 'c')), OfFamily(ds, 's'))
        && renderCalls == old(renderCalls) + ViewCalls(OfFamily(ds, 'v'), itemContext)
      ensures o.Pass? ==> ControlsWired(Snap(), OfFamily(Collect(n), 'c'), Some(itemContext))
      ensures o.Pass? ==> StatesWired(Snap(), OfFamily(Collect(n), 's'), Some(itemContext))
    {
      var ds := Collect(n);
      var t;
      o, t := ItemViewPass(n, OfFamily(ds, 'v'), itemContext);
      if o.Fail? {
        return o, t;
      }
      t := ConditionalPass(t, OfFamily(ds, 'f'), itemContext);
      ghost var s1 := Snap();
      o, r := NestedBindings(t, OfFamily(ds, 'c'), OfFamily(ds, 's'), itemContext);
      if o.Pass? {
        GrowsTransitive(old(Snap()), s1, Snap());
      }
    }

    /** The item loop of handleListDirective: one copy of the template's content per
        item, its elements given fresh identities, processed with that item's context. */
    method RenderItems(content: seq<Node>, items: seq<Value>) returns (o: Outcome, clones: seq<seq<Node>>)
      requires Valid()
      modifies this, frame
      ensures Valid() && Grows(old(Snap()), Snap())
      ensures root == old(root) && nextId >= old(nextId)
      ensures o.Pass? ==> |clones| == |items|
    {
      o, clones := Pass, [];
      var i := 0;
      while i < |items|
        invariant 0 <= i <= |items|
        invariant Valid() && Grows(old(Snap()), Snap())
        invariant root == old(root) && nextId >= old(nextId)
        invariant o == Pass && |clones| == i
      {
        var copy := RenumberAll(content, nextId);
        nextId := copy.1;
        ghost var s0 := Snap();
        var item;
        o, item := ProcessNested(Fragment(copy.0), ItemContext(items, i));
        GrowsTransitive(old(Snap()), s0, Snap());
        if o.Fail? {
          return;
        }
        clones := clones + [item.children];
        i := i + 1;
      }
    }

    /** handleListDirective(element, listName) at parse time: on a template with a
        parent, the parent loses every element child but the template, then receives
        one processed copy of the template per item of the state's list, and the list key
        is bound to render the list again. */
    method HandleList(element: nat, listName: string) returns (o: Outcome, clones: seq<seq<Node>>)
      requires Valid()
      modifies this, frame
      ensures Valid() && Grows(old(Snap()), Snap())
      ensures nextId >= old(nextId)
      ensures ListTarget(old(root), element).None? ==>
        o == Pass && root == old(root) && clones == [] && Snap() == old(Snap())
      ensures ListTarget(old(root), element).Some? ==>
        var c := ListTarget(old(root), element).value.1;
        var cleared := ReplaceChildren(old(root), c.id, KeepTemplate(c.children, element));
        (old(owner.GetState()).Err? ==> o == Fail(TypeError) && root == cleared)
        && (old(owner.GetState()).Ok? && ListSource(Null, GetProp(Obj(old(owner.GetState()).value), listName)).Err? ==>
              o == Fail(TypeError) && root == cleared)
        && (o.Pass? ==>
              old(owner.GetState()).Ok?
              && ListSource(Null, GetProp(Obj(old(owner.GetState()).value), listName)).Ok?
              && |clones| == |ListSource(Null, GetProp(Obj(old(owner.GetState()).value), listName)).value|
              && root == ReplaceChildren(old(root), c.id, RenderedChildren(c.children, element, clones))
              && Renders(Snap(), listName, element, Some(ListRenderFn(element))))
    {
      clones := [];
      var target := ListTarget(root, element);
      if target.None? {
        return Pass, clones;
      }
      var t := target.value.0;
      var c := target.value.1;
      ghost var start := root;
      root := ReplaceChildren(root, c.id, KeepTemplate(c.children, element));
      var st := owner.GetState();
      if st.Err? {
        return Fail(TypeError), clones;
      }
      var source := ListSource(Null, GetProp(Obj(st.value), listName));
      if source.Err? {
        return Fail(TypeError), clones;
      }
      o, clones := RenderItems(t.content, source.value);
      if o.Fail? {
        return;
      }
      ReplaceChildrenTwice(start, c.id, KeepTemplate(c.children, element), RenderedChildren(c.children, element, clones));
      root := ReplaceChildren(root, c.id, RenderedChildren(c.children, element, clones));
      ghost var s1 := Snap();
      o := BindRender(listName, element, ListRenderFn(element));
      GrowsTransitive(old(Snap()), s1, Snap());
    }

    /** The `l-` pass, on the module's tree. */
    method ListPass(ds: seq<Directive>) returns (o: Outcome)
      requires Valid()
      modifies this, frame
      ensures Valid() && Grows(old(Snap()), Snap())
      ensures ds == [] ==> o == Pass && root == old(root) && Snap() == old(Snap())
    {
      o := Pass;
      var i := 0;
      while i < |ds|
        invariant 0 <= i <= |ds|
        invariant Valid() && Grows(old(Snap()), Snap())
        invariant o == Pass && (i == 0 ==> root == old(root) && Snap() == old(Snap()))
      {
        ghost var s0 := Snap();
        var clones;
        o, clones := HandleList(ds[i].element, ds[i].name);
        if o.Fail? {
          return;
        }
        GrowsTransitive(old(Snap()), s0, Snap());
        root := Unmark(root, ds[i]);
        i := i + 1;
      }
    }

    /** The view pass and then the control pass, over the tree `n`. */
    method ViewControlPasses(n: Node, views: seq<Directive>, controls: seq<Directive>) returns (o: Outcome, r: Node)
      requires Valid()
      modifies this, frame
      ensures Valid() && Grows(old(Snap()), Snap()) && root == old(root)
      ensures o.Pass? ==> ViewsWired(Snap(), views) && ControlsWired(Snap(), controls, None) && Compiled(controls)
      ensures o.Pass? ==> r == Stripped(Stripped(n, views), controls)
      ensures owner.view.Some? && owner.control.Some? && ControlsReady(old(Snap()), controls) ==> o.Pass?
    {
      o, r := ViewPass(n, views);
      if o.Fail? {
        return;
      }
      ghost var s1 := Snap();
      SameHandlers(old(Snap()), s1, ControlPairs(controls));
      o, r := ControlPass(r, controls, None);
      if o.Fail? {
        return;
      }
      GrowsTransitive(old(Snap()), s1, Snap());
      ViewsStay(s1, Snap(), views);
    }

    /** The passes parse makes after the list pass: view, control, conditional. */
    method LatePasses(views: seq<Directive>, controls: seq<Directive>, conditionals: seq<Directive>)
      returns (o: Outcome)
      requires Valid()
      modifies this, frame
      ensures Valid() && Grows(old(Snap()), Snap())
      ensures o.Pass? ==> ViewsWired(Snap(), views) && ControlsWired(Snap(), controls, None) && Compiled(controls)
      ensures o.Pass? ==> root == Conditioned(Stripped(Stripped(old(root), views), controls), conditionals, Undefined)
      ensures o.Fail? ==> root == old(root)
      ensures owner.view.Some? && owner.control.Some? && ControlsReady(old(Snap()), controls) ==> o.Pass?
    {
      var t;
      o, t := ViewControlPasses(root, views, controls);
      if o.Pass? {
        ghost var s := Snap();
        root := ConditionalPass(t, conditionals, Undefined);
        assert Snap() == s;
      }
    }

    /** The state pass and then the list pass of parse, over the directives `ds`. */
    method EarlyPasses(ds: seq<Directive>) returns (o: Outcome)
      requires Valid()
      modifies this, frame
      ensures Valid() && Grows(old(Snap()), Snap())
      ensures owner.view.None? && OfFamily(ds, 's') != [] ==> o == Fail(TypeError)
      ensures o.Pass? ==> StatesWired(Snap(), OfFamily(ds, 's'), None)
      ensures o.Pass? && OfFamily(ds, 'l') == [] ==> root == Stripped(old(root), OfFamily(ds, 's'))
      ensures owner.view.Some? && owner.control.Some? && Parsable(old(Snap()), ds) ==>
        o.Pass? && ControlsReady(Snap(), OfFamily(ds, 'c'))
    {
      ghost var s0 := Snap();
      ghost var statePairs, controlPairs := StatePairs(OfFamily(ds, 's')), ControlPairs(OfFamily(ds, 'c'));
      BindableSplit(s0, s0, statePairs, controlPairs);
      var states := OfFamily(ds, 's');
      var t;
      o, t := StatePass(root, states, None);
      if o.Fail? {
        return;
      }
      root := t;
      ghost var s1 := Snap();
      o := ListPass(OfFamily(ds, 'l'));
      if o.Fail? {
        return;
      }
      if OfFamily(ds, 'l') == [] {
        BindableSplit(s0, Snap(), statePairs, controlPairs);
      }
      GrowsTransitive(old(Snap()), s1, Snap());
      StatesStay(s1, Snap(), states, None);
    }

    /** All five passes of parse over the directives `ds`, in the order state, list,
        view, control, conditional. */
    method Passes(ds: seq<Directive>) returns (o: Outcome)
      requires Valid()
      modifies this, frame
      ensures Valid() && Grows(old(Snap()), Snap())
      ensures owner.view.None? && OfFamily(ds, 's') != [] ==> o == Fail(TypeError)
      ensures o.Pass? ==> ParsedWired(Snap(), ds)
      ensures o.Pass? && OfFamily(ds, 'l') == [] ==>
        root == Conditioned(Stripped(Stripped(Stripped(old(root), OfFamily(ds, 's')), OfFamily(ds, 'v')),
                                     OfFamily(ds, 'c')), OfFamily(ds, 'f'), Undefined)
      ensures o.Pass? && ds == Collect(old(root)) && OfFamily(ds, 'l') == [] ==> Collect(root) == []
      ensures owner.view.Some? && owner.control.Some? && Parsable(old(Snap()), ds) ==> o.Pass?
    {
      ghost var s0 := Snap();
      o := EarlyPasses(ds);
      if o.Fail? {
        return;
      }
      ghost var s1 := Snap();
      o := LatePasses(OfFamily(ds, 'v'), OfFamily(ds, 'c'), OfFamily(ds, 'f'));
      if o.Fail? {
        return;
      }
      ghost var s2 := Snap();
      GrowsTransitive(s0, s1, s2);
      WiredAfterPasses(s1, s2, ds, OfFamily(ds, 's'), OfFamily(ds, 'v'), OfFamily(ds, 'c'));
      if ds == Collect(old(root)) && OfFamily(ds, 'l') == [] {
        ParsedCollectsNothing(old(root));
      }
    }

    /** parse(): data keys first, then the directives collected once and handled by
        family in the order state, list, view, control, conditional. */
    method Parse() returns (o: Outcome)
      requires Valid()
      modifies this, frame
      ensures Valid() && Grows(old(Snap()), Snap())
      ensures var ds := Collect(EnsureDataKeys(old(root), owner.name));
        owner.view.None? && OfFamily(ds, 's') != [] ==> o == Fail(TypeError)
      ensures o.Pass? ==> ParsedWired(Snap(), Collect(EnsureDataKeys(old(root), owner.name)))
      ensures var keyed := EnsureDataKeys(old(root), owner.name);
        o.Pass? && OfFamily(Collect(keyed), 'l') == [] ==> root == ParsedTree(keyed) && Collect(root) == []
      ensures owner.view.Some? && owner.control.Some? && Parsable(old(Snap()), Collect(EnsureDataKeys(old(root), owner.name))) ==>
        o.Pass?
    {
      root := EnsureDataKeys(root, owner.name);
      o := Passes(Collect(root));
    }
  }
}
