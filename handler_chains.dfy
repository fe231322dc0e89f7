/** What happens when a bound event fires: the state-chain interpreter of `s-`
    directives and the operator interpreter of `c-` directives. The module element is
    seen through its members, a map from property names to methods or data; a method is
    a pure behaviour of its first argument and its context argument. */
module HandlerChains {
  import opened Wrappers
  import opened JsStrings
  import opened JsValues
  import opened DirectiveSyntax

  /** A host method: its behaviour and whether its constructor is `AsyncFunction`. */
  datatype HostFn = HostFn(call: (Value, Value) -> Value, isAsync: bool)

  /** A property of the module element: a method, or a non-function value. */
  datatype Member = Method(fn: HostFn) | Data(v: Value)

  type Host = map<string, Member>

  /** `if (this.module[name])`: a method is truthy, data by its own truthiness. */
  predicate IsTruthyMember(host: Host, name: string) {
    name in host && (host[name].Method? || Truthy(host[name].v))
  }

  // ---------------------------------------------------------------------------
  // State chains (`s-` directives)

  /** The record of one chain run: the final value, the handlers called in order, and
      the handler whose `&` stopped the chain gracefully, if one did. */
  datatype ChainRun = ChainRun(value: Value, calls: seq<string>, softStop: Option<string>)

  /** The handler loop of handleStateDirective. Members that are absent or falsy are
      skipped; a truthy non-function member throws when called; an invalid result
      stops the chain gracefully after an `&` stage and throws after a `#` stage
      (both operators compared exactly); otherwise `value = newValue || value`. */
  function RunChain(stages: seq<Stage>, host: Host, ctx: Value, value: Value): Result<ChainRun>
    decreases |stages|
  {
    if stages == [] then Ok(ChainRun(value, [], None))
    else
      var name := stages[0].handlerName;
      if !IsTruthyMember(host, name) then RunChain(stages[1..], host, ctx, value)
      else if host[name].Data? then Err(TypeError)
      else
        var nv := host[name].fn.call(value, ctx);
        if stages[0].operator == "&" && IsInvalid(nv) then Ok(ChainRun(value, [name], Some(name)))
        else if stages[0].operator == "#" && IsInvalid(nv) then Err(ChainHardStop(name))
        else Prepend(name, RunChain(stages[1..], host, ctx, if Truthy(nv) then nv else value))
  }

  function Prepend(name: string, r: Result<ChainRun>): (q: Result<ChainRun>)
    ensures q.Ok? <==> r.Ok?
    ensures q.Err? ==> q == r
    ensures q.Ok? ==> q.value == r.value.(calls := [name] + r.value.calls)
  {
    if r.Ok? then Ok(r.value.(calls := [name] + r.value.calls)) else r
  }

  function PrependAll(names: seq<string>, r: Result<ChainRun>): (q: Result<ChainRun>)
    ensures q.Ok? <==> r.Ok?
    ensures q.Err? ==> q == r
    ensures q.Ok? ==> q.value == r.value.(calls := names + r.value.calls)
  {
    if r.Ok? then Ok(r.value.(calls := names + r.value.calls)) else r
  }

  lemma PrependAllPrepend(names: seq<string>, name: string, r: Result<ChainRun>)
    ensures PrependAll(names, Prepend(name, r)) == PrependAll(names + [name], r)
  {
    if r.Ok? {
      assert names + ([name] + r.value.calls) == (names + [name]) + r.value.calls;
    }
  }

  /** The `for ... of handlers` loop itself, with its `break` and its `throw`. */
  method RunStateChain(stages: seq<Stage>, host: Host, ctx: Value, input: Value) returns (r: Result<ChainRun>)
    ensures r == RunChain(stages, host, ctx, input)
  {
    var value := input;
    var calls: seq<string> := [];
    var i := 0;
    assert stages[0..] == stages;
    ghost var r0 := RunChain(stages, host, ctx, input);
    assert r0.Ok? ==> r0.value.(calls := [] + r0.value.calls) == r0.value;
    while i < |stages|
      invariant 0 <= i <= |stages|
      invariant RunChain(stages, host, ctx, input) == PrependAll(calls, RunChain(stages[i..], host, ctx, value))
      decreases |stages| - i
    {
      var name := stages[i].handlerName;
      assert stages[i..][1..] == stages[i + 1..];
      if IsTruthyMember(host, name) {
        if host[name].Data? {
          return Err(TypeError);
        }
        var nv := host[name].fn.call(value, ctx);
        if stages[i].operator == "&" && IsInvalid(nv) {
          assert [name] + [] == [name];
          return Ok(ChainRun(value, calls + [name], Some(name)));
        } else if stages[i].operator == "#" && IsInvalid(nv) {
          return Err(ChainHardStop(name));
        }
        value := if Truthy(nv) then nv else value;
        PrependAllPrepend(calls, name, RunChain(stages[i + 1..], host, ctx, value));
        calls := calls + [name];
      }
      i := i + 1;
    }
    assert calls + [] == calls;
    r := Ok(ChainRun(value, calls, None));
  }

  /** A truthy starting value stays truthy along the whole chain: `newValue || value`
      never replaces it by a falsy one. */
  lemma {:induction false} ChainKeepsTruthy(stages: seq<Stage>, host: Host, ctx: Value, value: Value)
    requires Truthy(value)
    ensures RunChain(stages, host, ctx, value).Ok? ==> Truthy(RunChain(stages, host, ctx, value).value.value)
    decreases |stages|
  {
    if stages != [] {
      var name := stages[0].handlerName;
      if !IsTruthyMember(host, name) {
        ChainKeepsTruthy(stages[1..], host, ctx, value);
      } else if host[name].Method? {
        var nv := host[name].fn.call(value, ctx);
        ChainKeepsTruthy(stages[1..], host, ctx, if Truthy(nv) then nv else value);
      }
    }
  }

  /** Only methods are called, no more of them than there are stages, and a graceful
      stop names the last handler that was called. */
  lemma {:induction false} ChainCallsMethods(stages: seq<Stage>, host: Host, ctx: Value, value: Value)
    ensures var r := RunChain(stages, host, ctx, value);
      r.Ok? ==>
        |r.value.calls| <= |stages|
        && (forall n :: 0 <= n < |r.value.calls| ==>
              r.value.calls[n] in host && host[r.value.calls[n]].Method?)
        && (r.value.softStop.Some? ==>
              r.value.calls != [] && r.value.softStop.value == r.value.calls[|r.value.calls| - 1])
    decreases |stages|
  {
    if stages != [] {
      var name := stages[0].handlerName;
      if !IsTruthyMember(host, name) {
        ChainCallsMethods(stages[1..], host, ctx, value);
      } else if host[name].Method? {
        var nv := host[name].fn.call(value, ctx);
        ChainCallsMethods(stages[1..], host, ctx, if Truthy(nv) then nv else value);
      }
    }
  }

  /** A chain calls each of its handlers when every one of them is a method returning
      a valid value: no stop happens and every stage contributes a call. */
  lemma {:induction false} ChainAllValid(stages: seq<Stage>, host: Host, ctx: Value, value: Value)
    requires forall n :: 0 <= n < |stages| ==>
      stages[n].handlerName in host && host[stages[n].handlerName].Method?
    requires forall n, v :: 0 <= n < |stages| ==> Truthy(host[stages[n].handlerName].fn.call(v, ctx))
    ensures var r := RunChain(stages, host, ctx, value);
      r.Ok? && r.value.softStop == None
      && r.value.calls == seq(|stages|, n requires 0 <= n < |stages| => stages[n].handlerName)
    decreases |stages|
  {
    if stages != [] {
      var name := stages[0].handlerName;
      var nv := host[name].fn.call(value, ctx);
      assert IsTruthyMember(host, name);
      assert Truthy(nv);
      assert !IsInvalid(nv);
      var tail := stages[1..];
      assert forall n :: 0 <= n < |tail| ==> tail[n] == stages[n + 1];
      ChainAllValid(tail, host, ctx, nv);
      var rest := RunChain(tail, host, ctx, nv);
      assert RunChain(stages, host, ctx, value) == Prepend(name, rest);
    }
  }

  /** The `#` operator: an invalid result of the first handler throws, naming it. */
  lemma HardStopNamesHandler(st: Stage, rest: seq<Stage>, host: Host, ctx: Value, value: Value)
    requires st.operator == "#" && st.handlerName in host && host[st.handlerName].Method?
    requires IsInvalid(host[st.handlerName].fn.call(value, ctx))
    ensures RunChain([st] + rest, host, ctx, value) == Err(ChainHardStop(st.handlerName))
  {
    assert ([st] + rest)[0] == st;
  }

  /** The `&` operator: an invalid result of the first handler stops the chain with the
      value it started from, and no later handler runs. */
  lemma SoftStopKeepsValue(st: Stage, rest: seq<Stage>, host: Host, ctx: Value, value: Value)
    requires st.operator == "&" && st.handlerName in host && host[st.handlerName].Method?
    requires IsInvalid(host[st.handlerName].fn.call(value, ctx))
    ensures RunChain([st] + rest, host, ctx, value) == Ok(ChainRun(value, [st.handlerName], Some(st.handlerName)))
  {
    assert ([st] + rest)[0] == st;
  }

  /** The whole `s-` event handler: it reads the element value, runs the chain and then
      assigns `state[stateName] = value` on the state it was given, which is the
      read-only view, so the write itself throws. The chain's own error comes first. */
  function StateDirectiveEvent(directive: string, host: Host, ctx: Value, elementValue: Value): (o: Outcome)
    ensures o.Fail?
    ensures var r := RunChain(Tokenize(directive), host, ctx, elementValue);
      (r.Ok? ==> o == Fail(ImmutableViolation)) && (r.Err? ==> o == Fail(r.error))
  {
    match RunChain(Tokenize(directive), host, ctx, elementValue)
    case Err(e) => Fail(e)
    case Ok(_) => Fail(ImmutableViolation)
  }

  /** handleStateDirectiveWithContext runs the same chain with the context
      `{...getState(), ...itemContext}`, item fields overriding state fields. */
  function StateChainContext(snapshot: map<string, Value>, itemContext: map<string, Value>): (ctx: Value)
    ensures ctx.Obj? && ctx.fields.Keys == snapshot.Keys + itemContext.Keys
    ensures forall k :: k in itemContext ==> ctx.fields[k] == itemContext[k]
    ensures forall k :: k in snapshot && k !in itemContext ==> ctx.fields[k] == snapshot[k]
  {
    Obj(snapshot + itemContext)
  }

  /** Without an item the chain sees the state snapshot itself, as at the top level; the
      state keys an item shadows are never seen; and overlaying the item twice is
      overlaying it once. */
  lemma StateChainContextOverlay(snapshot: map<string, Value>, itemContext: map<string, Value>)
    ensures StateChainContext(snapshot, map[]) == Obj(snapshot)
    ensures StateChainContext(snapshot - itemContext.Keys, itemContext) == StateChainContext(snapshot, itemContext)
    ensures StateChainContext(StateChainContext(snapshot, itemContext).fields, itemContext)
            == StateChainContext(snapshot, itemContext)
  {
    assert snapshot + map[] == snapshot;
    assert (snapshot - itemContext.Keys) + itemContext == snapshot + itemContext;
    assert (snapshot + itemContext) + itemContext == snapshot + itemContext;
  }

  // ---------------------------------------------------------------------------
  // Control directives (`c-` directives)

  /** What firing a control directive asks of the rest of the engine. */
  datatype Effect =
    | Dispatch(eventName: string, detail: Value)
        // control.dispatch(eventName, detail), synchronously
    | BindNew(eventName: string, handlerName: Option<string>)
        // module.bindEvent(el, eventName, ...) whose handler calls module[handlerName]
    | AwaitThenDispatch(handler: string, eventName: string)
        // the async handler was called; once its promise resolves, dispatch eventName with {result}
    | ThenDispatch(eventName: string, context: Value)
        // result.then(...): dispatch eventName with {result: resolved, context}

  /** The handlers called in order, the effects requested in order, and whether the
      event handler returned or threw. */
  datatype ControlRun = ControlRun(calls: seq<string>, effects: seq<Effect>, outcome: Outcome)

  /** `this.module[name]?.(event, el, arg)`: nothing is called when the member is
      null or undefined; any other non-function member throws. */
  function OptionalCall(host: Host, name: string, event: Value, arg: Value): (r: Result<Option<Value>>)
    ensures r.Err? <==> name in host && host[name].Data? && !IsNullish(host[name].v)
    ensures r.Ok? && r.value.Some? <==> name in host && host[name].Method?
    ensures r.Ok? && r.value.Some? ==> r.value.value == host[name].fn.call(event, arg)
  {
    if name !in host then Ok(None)
    else match host[name]
      case Method(fn) => Ok(Some(fn.call(event, arg)))
      case Data(v) => if IsNullish(v) then Ok(None) else Err(TypeError)
  }

  function CallResult(c: Option<Value>): Value {
    if c.Some? then c.value else Undefined
  }

  function CallNames(name: string, c: Option<Value>): seq<string> {
    if c.Some? then [name] else []
  }

  /** #validateEventName, as dispatch applies it. */
  predicate ValidEventName(name: string) {
    Trim(name) != ""
  }

  /** The `*` operator: each comma-separated name, trimmed, is dispatched with
      `{result}` in turn; the first blank name throws, after the earlier dispatches. */
  function Broadcast(pieces: seq<string>, detail: Value): (r: (seq<Effect>, Outcome))
    ensures |r.0| <= |pieces|
    ensures forall n :: 0 <= n < |r.0| ==> r.0[n] == Dispatch(Trim(pieces[n]), detail)
    ensures r.1 == Pass <==> |r.0| == |pieces|
    ensures r.1.Fail? ==> r.1 == Fail(InvalidName) && !ValidEventName(Trim(pieces[|r.0|]))
  {
    if pieces == [] then ([], Pass)
    else
      var name := Trim(pieces[0]);
      if !ValidEventName(name) then ([], Fail(InvalidName))
      else
        var rest := Broadcast(pieces[1..], detail);
        ([Dispatch(name, detail)] + rest.0, rest.1)
  }

  /** The context of the first call of a control directive. With `:` and details it is
      `{actionDetails, ...getState()}` (a state key `actionDetails` wins); otherwise it
      is the state argument of the bound handler. */
  function ControlContext(p: ParsedDirective, snapshot: map<string, Value>): (ctx: Value)
    ensures ctx.Obj? && snapshot.Keys <= ctx.fields.Keys
    ensures forall k :: k in snapshot ==> ctx.fields[k] == snapshot[k]
    ensures p.operator == Some(':') && p.actionDetails.Some? && p.actionDetails.value != "" ==>
      ctx.fields.Keys == snapshot.Keys + {"actionDetails"}
      && ("actionDetails" !in snapshot ==> ctx.fields["actionDetails"] == Str(p.actionDetails.value))
  {
    if p.operator == Some(':') && p.actionDetails.Some? && p.actionDetails.value != "" then
      Obj(map["actionDetails" := Str(p.actionDetails.value)] + snapshot)
    else Obj(snapshot)
  }

  function DetailsText(p: ParsedDirective): string {
    if p.actionDetails.Some? then p.actionDetails.value else ""
  }

  /** The event handler handleControlDirective binds, fired once on `event`: the first
      handler is called, and the operator then acts on the details. */
  function FireControl(p: ParsedDirective, host: Host, event: Value, snapshot: map<string, Value>): (run: ControlRun)
    ensures DetailsText(p) == "" || p.operator.None? ==>
      (run.effects == [] && |run.calls| <= 1 && run.outcome.Pass?) || run == ControlRun([], [], Fail(TypeError))
    ensures |run.calls| <= 2
    ensures p.firstAction in host && host[p.firstAction].Method? ==> run.calls != [] && run.calls[0] == p.firstAction
    ensures run.outcome.Pass? && p.operator != Some('*') ==> |run.effects| <= 1
  {
    match OptionalCall(host, p.firstAction, event, ControlContext(p, snapshot))
    case Err(e) => ControlRun([], [], Fail(e))
    case Ok(first) =>
      var calls := CallNames(p.firstAction, first);
      var d := DetailsText(p);
      if d == "" || p.operator.None? then ControlRun(calls, [], Pass)
      else
        var rest := ApplyOperator(p.operator.value, d, host, event, CallResult(first));
        ControlRun(calls + rest.calls, rest.effects, rest.outcome)
  }

  /** The `switch (operator)` of the bound handler, given non-empty details and the
      result of the first handler. */
  function ApplyOperator(op: char, d: string, host: Host, event: Value, result: Value): (run: ControlRun)
    ensures |run.calls| <= 1
    ensures run.calls != [] ==> run.calls[0] == Split(d, ':')[0] && (op == '&' || op == '#' || op == '@')
    ensures run.outcome.Pass? && op != '*' ==> |run.effects| <= 1
    ensures op == '&' || op == '#' || op == ':' ==> run.effects == []
    ensures op == '&' && IsInvalid(result) ==> run == ControlRun([], [], Pass)
    ensures op == '#' && IsInvalid(result) ==> run == ControlRun([], [], Fail(ChainHardStop(Split(d, ':')[0])))
    ensures !(op in {'&', '#', '>', '*', '@', '<', ':'}) ==> run == ControlRun([], [], Fail(UnknownOperator))
  {
    var fnName := Split(d, ':')[0];
    if op == '&' || op == '#' then
      if IsInvalid(result) then
        ControlRun([], [], if op == '&' then Pass else Fail(ChainHardStop(fnName)))
      else
        match OptionalCall(host, fnName, event, result)
        case Err(e) => ControlRun([], [], Fail(e))
        case Ok(second) => ControlRun(CallNames(fnName, second), [], Pass)
    else if op == '>' then
      if ValidEventName(fnName) then ControlRun([], [Dispatch(fnName, ResultDetail(result))], Pass)
      else ControlRun([], [], Fail(InvalidName))
    else if op == '*' then
      var b := Broadcast(Split(d, ','), ResultDetail(result));
      ControlRun([], b.0, b.1)
    else if op == '@' then
      if fnName in host && host[fnName].Method? && host[fnName].fn.isAsync then
        ControlRun([fnName], [AwaitThenDispatch(fnName, fnName)], Pass)
      else ControlRun([], [], Fail(NotAsync(fnName)))
    else if op == '<' then
      var pieces := Split(d, ':');
      ControlRun([], [BindNew(pieces[0], if |pieces| > 1 then Some(pieces[1]) else None)], Pass)
    else if op == ':' then ControlRun([], [], Pass)
    else ControlRun([], [], Fail(UnknownOperator))
  }

  /** A name made of characters no part of the directive syntax gives a meaning to. */
  predicate PlainName(s: string) {
    forall k :: 0 <= k < |s| ==> !IsWhitespace(s[k]) && !IsOperatorChar(s[k]) && s[k] != ':' && s[k] != ','
  }

  /** `a>b` for plain names reads as handler `a`, operator `>`, details `b`. */
  lemma CompileDispatch(a: string, b: string)
    requires PlainName(a) && PlainName(b) && a != ""
    ensures CompileControl(a + ">" + b) == Ok(ParsedDirective(a, Some('>'), Some(b)))
  {
    var v := a + ">" + b;
    assert forall k :: 0 <= k < |a| ==> v[k] == a[k];
    assert v[|a|] == '>';
    FirstOperatorAt(v, |a|);
    assert v[..|a|] == a;
    TrimNoWhitespace(a);
    var rest := v[|a| + 1..];
    assert rest == b;
    FirstOperatorAt(rest, |b|);
    assert rest[..|b|] == b;
    TrimNoWhitespace(b);
    assert ParseDirective(v) == ParsedDirective(a, Some('>'), Some(b));
    assert ':' !in a;
  }

  lemma SplitOfPlain(s: string, sep: char)
    requires sep !in s
    ensures Split(s, sep)[0] == s
  {
    assert IndexOf(s, sep) == |s|;
    assert s[..|s|] == s;
  }

  lemma FireDispatch(a: string, b: string, host: Host, event: Value, snapshot: map<string, Value>, f: HostFn)
    requires PlainName(b) && b != ""
    requires a in host && host[a] == Method(f)
    ensures FireControl(ParsedDirective(a, Some('>'), Some(b)), host, event, snapshot)
              == ControlRun([a], [Dispatch(b, ResultDetail(f.call(event, Obj(snapshot))))], Pass)
  {
    var p := ParsedDirective(a, Some('>'), Some(b));
    assert ControlContext(p, snapshot) == Obj(snapshot);
    var r := f.call(event, Obj(snapshot));
    assert OptionalCall(host, a, event, Obj(snapshot)) == Ok(Some(r));
    ApplyDispatch(b, host, event, r);
    assert [a] + [] == [a];
  }

  lemma ApplyDispatch(b: string, host: Host, event: Value, r: Value)
    requires PlainName(b) && b != ""
    ensures ApplyOperator('>', b, host, event, r) == ControlRun([], [Dispatch(b, ResultDetail(r))], Pass)
  {
    assert ':' !in b;
    SplitOfPlain(b, ':');
    TrimNoWhitespace(b);
  }

  /** Firing `a>b` dispatches the result of handler `a` under the event name `b`, as `{result}`. */
  lemma DispatchScenario(a: string, b: string, host: Host, event: Value, snapshot: map<string, Value>, f: HostFn)
    requires PlainName(a) && PlainName(b) && a != "" && b != ""
    requires a in host && host[a] == Method(f)
    ensures FireControl(CompileControl(a + ">" + b).value, host, event, snapshot)
              == ControlRun([a], [Dispatch(b, ResultDetail(f.call(event, Obj(snapshot))))], Pass)
  {
    CompileDispatch(a, b);
    FireDispatch(a, b, host, event, snapshot, f);
  }

  /** An operator the switch does not know, such as `|`, throws once the first handler
      has run and details are present; `:` with details does nothing more. */
  lemma UnknownOperatorThrows(p: ParsedDirective, host: Host, event: Value, snapshot: map<string, Value>)
    requires p.operator == Some('|') && p.actionDetails.Some? && p.actionDetails.value != ""
    requires p.firstAction !in host
    ensures FireControl(p, host, event, snapshot) == ControlRun([], [], Fail(UnknownOperator))
  {
  }

  /** With `@`, a handler that is not an async method is rejected after the first call. */
  lemma AsyncRequired(p: ParsedDirective, host: Host, event: Value, snapshot: map<string, Value>)
    requires p.operator == Some('@') && p.actionDetails.Some? && p.actionDetails.value != ""
    requires p.firstAction !in host
    requires var f := Split(p.actionDetails.value, ':')[0]; f !in host || host[f].Data? || !host[f].fn.isAsync
    ensures FireControl(p, host, event, snapshot).outcome == Fail(NotAsync(Split(p.actionDetails.value, ':')[0]))
  {
  }

  /** The event handler handleControlDirectiveWithContext binds. The context merges the
      state snapshot and the item context; only `>` (dispatching the whole details text
      with `{result, context}`) and `@` (only when the result is thenable) act on the
      details, and no other operator throws. */
  function FireControlWithContext(p: ParsedDirective, host: Host, event: Value, snapshot: map<string, Value>,
                                  itemContext: map<string, Value>): (run: ControlRun)
    ensures |run.effects| <= 1 && |run.calls| <= 1
    ensures run.calls != [] ==> run.calls == [p.firstAction]
    ensures run.effects != [] ==> p.operator == Some('>') || p.operator == Some('@')
  {
    var merged := snapshot + itemContext;
    var ctx := if p.operator == Some(':') && DetailsText(p) != "" then
                 Obj(map["actionDetails" := Str(DetailsText(p))] + merged)
               else Obj(merged);
    match OptionalCall(host, p.firstAction, event, ctx)
    case Err(e) => ControlRun([], [], Fail(e))
    case Ok(first) =>
      var calls := CallNames(p.firstAction, first);
      var result := CallResult(first);
      var d := DetailsText(p);
      if d == "" then ControlRun(calls, [], Pass)
      else if p.operator == Some('>') then
        if ValidEventName(d) then
          ControlRun(calls, [Dispatch(d, Obj(map["result" := result, "context" := Obj(merged)]))], Pass)
        else ControlRun(calls, [], Fail(InvalidName))
      else if p.operator == Some('@') && IsThenable(result) then
        ControlRun(calls, [ThenDispatch(d, Obj(merged))], Pass)
      else ControlRun(calls, [], Pass)
  }

  /** `typeof result?.then === 'function'`. */
  predicate IsThenable(v: Value) {
    v.Promise? || (v.Obj? && "then" in v.fields && v.fields["then"].Func?)
  }
}
