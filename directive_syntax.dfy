/** The attribute micro-language of the directive compiler, as text: the splitter of
    control directives (`parseDirective` with its `:` override) and the tokenizer of
    state directives (the regex `([a-zA-Z0-9]+)([&|#]*)` run with the `g` flag). */
module DirectiveSyntax {
  import opened Wrappers
  import opened JsStrings

  /** The characters of the splitting regex `/([&|>#@*<])/`. */
  predicate IsOperatorChar(c: char) {
    c == '&' || c == '|' || c == '>' || c == '#' || c == '@' || c == '*' || c == '<'
  }

  /** The index of the first operator character, or `|s|` when there is none. */
  function FirstOperator(s: string): (i: nat)
    ensures i <= |s|
    ensures i < |s| ==> IsOperatorChar(s[i])
    ensures forall j :: 0 <= j < i ==> !IsOperatorChar(s[j])
  {
    if s == [] then 0 else if IsOperatorChar(s[0]) then 0 else 1 + FirstOperator(s[1..])
  }

  /** `s.split(/([&|>#@*<])/)`: the text between operators, with every operator kept
      as a one-character piece in between (the capturing group). */
  function SplitKeepingOperators(s: string): (parts: seq<string>)
    ensures |parts| % 2 == 1
    ensures parts[0] == s[..FirstOperator(s)]
    ensures FirstOperator(s) < |s| <==> |parts| > 1
    ensures |parts| > 1 ==> parts[1] == [s[FirstOperator(s)]]
    ensures |parts| > 1 ==>
      parts[2] == s[FirstOperator(s) + 1..][..FirstOperator(s[FirstOperator(s) + 1..])]
    decreases |s|
  {
    var i := FirstOperator(s);
    if i == |s| then [s] else [s[..i], [s[i]]] + SplitKeepingOperators(s[i + 1..])
  }

  /** The record parseDirective returns. */
  datatype ParsedDirective = ParsedDirective(firstAction: string, operator: Option<char>, actionDetails: Option<string>)

  /** parseDirective: `firstAction` is the trimmed text before the first operator,
      `operator` that operator, `actionDetails` the trimmed text between it and the next
      operator; both null when there is no operator. */
  function ParseDirective(v: string): (p: ParsedDirective)
    ensures p.firstAction == Trim(v[..FirstOperator(v)])
    ensures p.operator.Some? <==> FirstOperator(v) < |v|
    ensures p.operator.Some? ==> p.operator.value == v[FirstOperator(v)] && IsOperatorChar(p.operator.value)
    ensures p.actionDetails.Some? <==> p.operator.Some?
    ensures p.actionDetails.Some? ==>
      var rest := v[FirstOperator(v) + 1..];
      p.actionDetails.value == Trim(rest[..FirstOperator(rest)])
  {
    var parts := SplitKeepingOperators(v);
    ParsedDirective(
      Trim(parts[0]),
      if |parts| > 1 then Some(parts[1][0]) else None,
      if |parts| > 2 then Some(Trim(parts[2])) else None)
  }

  /** An index before which no operator occurs, and at which one does (or the end), is
      the first operator. */
  lemma {:induction false} FirstOperatorAt(s: string, i: nat)
    requires i <= |s|
    requires forall j :: 0 <= j < i ==> !IsOperatorChar(s[j])
    requires i < |s| ==> IsOperatorChar(s[i])
    ensures FirstOperator(s) == i
  {
    if i > 0 {
      FirstOperatorAt(s[1..], i - 1);
    }
  }

  /** The example in the doc-comment of parseDirective promises operator `&|` and details
      `hidden`; the split takes only the first operator, and the details are the empty
      text between `&` and `|`. */
  lemma ParseDirectiveDocExample()
    ensures ParseDirective("show &| hidden") == ParsedDirective("show", Some('&'), Some(""))
  {
    ExampleOperators();
    TrimShow();
    assert "show &| hidden"[..5] == "show ";
  }

  lemma ExampleOperators()
    ensures FirstOperator("show &| hidden") == 5
    ensures "show &| hidden"[6..] == "| hidden" && FirstOperator("| hidden") == 0
  {
    FirstOperatorAt("show &| hidden", 5);
  }

  lemma TrimShow()
    ensures Trim("show ") == "show"
  {
    assert TrimEnd("show ") == TrimEnd("show");
    TrimNoWhitespace("show");
  }

  /** The reading of a control directive at bind time: when `firstAction` contains a
      colon it is split there, the piece after the first colon replaces `actionDetails`
      and the operator becomes `:` whatever operator the value held. */
  function ControlReading(v: string): (p: ParsedDirective)
    ensures var head := Trim(v[..FirstOperator(v)]);
      if ':' in head then
        p == ParsedDirective(head[..IndexOf(head, ':')], Some(':'),
                             Some(Split(head[IndexOf(head, ':') + 1..], ':')[0]))
      else p == ParseDirective(v)
    ensures ':' !in p.firstAction
  {
    var q := ParseDirective(v);
    if ':' in q.firstAction then
      var pieces := Split(q.firstAction, ':');
      ParsedDirective(pieces[0], Some(':'), Some(pieces[1]))
    else q
  }

  /** handleControlDirective's bind-time check: "Minimum one handler is needed" exactly
      when nothing is left of the first action. */
  function CompileControl(v: string): (r: Result<ParsedDirective>)
    ensures r.Err? <==> ControlReading(v).firstAction == ""
    ensures r.Err? ==> r.error == MinimumOneHandler
    ensures r.Ok? ==> r.value == ControlReading(v)
    ensures r.Ok? ==> (r.value.operator.Some? <==> r.value.actionDetails.Some?)
  {
    var p := ControlReading(v);
    if p.firstAction == "" then Err(MinimumOneHandler) else Ok(p)
  }

  // ---------------------------------------------------------------------------
  // The state-chain tokenizer

  /** One `{handlerName, operator}` record of a state chain. */
  datatype Stage = Stage(handlerName: string, operator: string)

  /** The class `[&|#]`. */
  predicate IsChainOp(c: char) { c == '&' || c == '|' || c == '#' }

  /** The end of the run of `[a-zA-Z0-9]` starting at `i`. */
  function AlnumEnd(s: string, i: nat): (j: nat)
    requires i <= |s|
    ensures i <= j <= |s|
    ensures j < |s| ==> !IsAlnum(s[j])
    decreases |s| - i
  {
    if i < |s| && IsAlnum(s[i]) then AlnumEnd(s, i + 1) else i
  }

  /** Every character AlnumEnd passes over is in the class. */
  lemma {:induction false} AlnumEndRun(s: string, i: nat)
    requires i <= |s|
    ensures forall k :: i <= k < AlnumEnd(s, i) ==> IsAlnum(s[k])
    decreases |s| - i
  {
    if i < |s| && IsAlnum(s[i]) {
      AlnumEndRun(s, i + 1);
    }
  }

  /** The end of the run of `[&|#]` starting at `i`. */
  function OpEnd(s: string, i: nat): (j: nat)
    requires i <= |s|
    ensures i <= j <= |s|
    ensures j < |s| ==> !IsChainOp(s[j])
    decreases |s| - i
  {
    if i < |s| && IsChainOp(s[i]) then OpEnd(s, i + 1) else i
  }

  /** Every character OpEnd passes over is in the class. */
  lemma {:induction false} OpEndRun(s: string, i: nat)
    requires i <= |s|
    ensures forall k :: i <= k < OpEnd(s, i) ==> IsChainOp(s[k])
    decreases |s| - i
  {
    if i < |s| && IsChainOp(s[i]) {
      OpEndRun(s, i + 1);
    }
  }

  /** The matches of the global regex from `lastIndex = i` on: each search starts at the
      next alphanumeric character and takes the longest run of base characters and then
      the longest run of operator characters. */
  function TokenizeFrom(s: string, i: nat): seq<Stage>
    requires i <= |s|
    decreases |s| - i
  {
    if i == |s| then []
    else if !IsAlnum(s[i]) then TokenizeFrom(s, i + 1)
    else
      var j := AlnumEnd(s, i);
      var k := OpEnd(s, j);
      [Stage(s[i..j], s[j..k])] + TokenizeFrom(s, k)
  }

  function Tokenize(s: string): seq<Stage> {
    TokenizeFrom(s, 0)
  }

  /** The `while (regex.exec(...))` loop of handleStateDirective, which pushes one
      record per match. */
  method TokenizeStateChain(s: string) returns (handlers: seq<Stage>)
    ensures handlers == Tokenize(s)
  {
    handlers := [];
    var lastIndex := 0;
    while lastIndex < |s|
      invariant 0 <= lastIndex <= |s|
      invariant handlers + TokenizeFrom(s, lastIndex) == Tokenize(s)
      decreases |s| - lastIndex
    {
      if !IsAlnum(s[lastIndex]) {
        lastIndex := lastIndex + 1;
      } else {
        var j := lastIndex;
        while j < |s| && IsAlnum(s[j])
          invariant lastIndex <= j <= |s|
          invariant AlnumEnd(s, j) == AlnumEnd(s, lastIndex)
        {
          j := j + 1;
        }
        var k := j;
        while k < |s| && IsChainOp(s[k])
          invariant j <= k <= |s|
          invariant OpEnd(s, k) == OpEnd(s, j)
        {
          k := k + 1;
        }
        handlers := handlers + [Stage(s[lastIndex..j], s[j..k])];
        lastIndex := k;
      }
    }
  }

  /** A record the tokenizer can produce: a non-empty alphanumeric name and an operator
      made of `&`, `|` and `#` only. */
  predicate WellFormedStage(st: Stage) {
    |st.handlerName| >= 1
    && (forall k :: 0 <= k < |st.handlerName| ==> IsAlnum(st.handlerName[k]))
    && (forall k :: 0 <= k < |st.operator| ==> IsChainOp(st.operator[k]))
  }

  lemma {:induction false} TokenizeFromWellFormed(s: string, i: nat)
    requires i <= |s|
    ensures forall n :: 0 <= n < |TokenizeFrom(s, i)| ==> WellFormedStage(TokenizeFrom(s, i)[n])
    decreases |s| - i
  {
    if i < |s| {
      if !IsAlnum(s[i]) {
        TokenizeFromWellFormed(s, i + 1);
      } else {
        var j := AlnumEnd(s, i);
        var k := OpEnd(s, j);
        AlnumEndRun(s, i);
        OpEndRun(s, j);
        TokenizeFromWellFormed(s, k);
      }
    }
  }

  /** Every record of the tokenizer is well formed. */
  lemma TokenizeWellFormed(s: string)
    ensures forall n :: 0 <= n < |Tokenize(s)| ==> WellFormedStage(Tokenize(s)[n])
  {
    TokenizeFromWellFormed(s, 0);
  }

  /** The event name handleStateDirective binds: the text before the first `|`. */
  function BoundEventName(v: string): (e: string)
    ensures e == v[..IndexOf(v, '|')]
  {
    Split(v, '|')[0]
  }

  lemma {:induction false} AlnumEndAt(s: string, i: nat, j: nat)
    requires i <= j <= |s|
    requires forall k :: i <= k < j ==> IsAlnum(s[k])
    requires j < |s| ==> !IsAlnum(s[j])
    ensures AlnumEnd(s, i) == j
    decreases j - i
  {
    if i < j { AlnumEndAt(s, i + 1, j); }
  }

  /** An alphanumeric event name is also the first stage of the chain: the tokenizer
      runs over the whole value, event name included, so a host member named like the
      event is called as the first handler. */
  lemma EventNameIsFirstStage(v: string)
    requires BoundEventName(v) != ""
    requires forall k :: 0 <= k < |BoundEventName(v)| ==> IsAlnum(BoundEventName(v)[k])
    ensures |Tokenize(v)| >= 1 && Tokenize(v)[0].handlerName == BoundEventName(v)
    ensures '|' in v ==> Tokenize(v)[0].operator != "" && Tokenize(v)[0].operator[0] == '|'
  {
    var e := BoundEventName(v);
    var n := IndexOf(v, '|');
    forall k | 0 <= k < n ensures IsAlnum(v[k]) {
      assert v[k] == e[k];
    }
    AlnumEndAt(v, 0, n);
    assert TokenizeFrom(v, 0)[0] == Stage(v[0..n], v[n..OpEnd(v, n)]);
    if '|' in v {
      assert n < |v|;
      assert OpEnd(v, n) > n;
    }
  }

  /** The chain text a sequence of records stands for, each record followed by a blank. */
  function RenderStages(stages: seq<Stage>): string {
    if stages == [] then "" else stages[0].handlerName + stages[0].operator + " " + RenderStages(stages[1..])
  }

  lemma {:induction false} AlnumEndShift(p: string, b: string, i: nat)
    requires i <= |b|
    ensures AlnumEnd(p + b, |p| + i) == |p| + AlnumEnd(b, i)
    decreases |b| - i
  {
    if i < |b| && IsAlnum(b[i]) {
      assert (p + b)[|p| + i] == b[i];
      AlnumEndShift(p, b, i + 1);
    } else if i < |b| {
      assert (p + b)[|p| + i] == b[i];
    }
  }

  lemma {:induction false} OpEndShift(p: string, b: string, i: nat)
    requires i <= |b|
    ensures OpEnd(p + b, |p| + i) == |p| + OpEnd(b, i)
    decreases |b| - i
  {
    if i < |b| && IsChainOp(b[i]) {
      assert (p + b)[|p| + i] == b[i];
      OpEndShift(p, b, i + 1);
    } else if i < |b| {
      assert (p + b)[|p| + i] == b[i];
    }
  }

  lemma SliceShift(p: string, b: string, i: nat, j: nat)
    requires i <= j <= |b|
    ensures (p + b)[|p| + i..|p| + j] == b[i..j]
  {
  }

  /** Tokenizing ignores whatever precedes the search position. */
  lemma {:induction false} TokenizeFromShift(p: string, b: string, i: nat)
    requires i <= |b|
    ensures TokenizeFrom(p + b, |p| + i) == TokenizeFrom(b, i)
    decreases |b| - i
  {
    var s := p + b;
    if i < |b| {
      assert s[|p| + i] == b[i];
      if !IsAlnum(b[i]) {
        TokenizeFromShift(p, b, i + 1);
        assert TokenizeFrom(s, |p| + i) == TokenizeFrom(s, |p| + i + 1);
      } else {
        AlnumEndShift(p, b, i);
        var j := AlnumEnd(b, i);
        OpEndShift(p, b, j);
        var k := OpEnd(b, j);
        SliceShift(p, b, i, j);
        SliceShift(p, b, j, k);
        TokenizeFromShift(p, b, k);
        assert TokenizeFrom(s, |p| + i) == [Stage(s[|p| + i..|p| + j], s[|p| + j..|p| + k])] + TokenizeFrom(s, |p| + k);
        assert TokenizeFrom(b, i) == [Stage(b[i..j], b[j..k])] + TokenizeFrom(b, k);
      }
    }
  }

  /** The first record of a rendering is its first stage, and the search resumes
      after the blank that follows it. */
  lemma TokenizeHead(st: Stage, rest: string)
    requires WellFormedStage(st)
    ensures var t := st.handlerName + st.operator + " ";
      TokenizeFrom(t + rest, 0) == [st] + TokenizeFrom(t + rest, |t|)
  {
    var t := st.handlerName + st.operator + " ";
    var s := t + rest;
    var a := |st.handlerName|;
    var b := a + |st.operator|;
    assert forall k :: 0 <= k < a ==> s[k] == st.handlerName[k];
    assert forall k :: a <= k < b ==> s[k] == st.operator[k - a];
    assert s[b] == ' ';
    AlnumEndAt(s, 0, a);
    OpEndFrom(s, a, b);
    assert s[0..a] == st.handlerName;
    assert s[a..b] == st.operator;
    assert TokenizeFrom(s, 0) == [Stage(s[0..a], s[a..b])] + TokenizeFrom(s, b);
    assert TokenizeFrom(s, b) == TokenizeFrom(s, b + 1);
  }

  /** Tokenizing the rendering of well-formed records gives back exactly those records,
      in order: one record per name, with its operator run. */
  lemma {:induction false} TokenizeRender(stages: seq<Stage>)
    requires forall n :: 0 <= n < |stages| ==> WellFormedStage(stages[n])
    ensures Tokenize(RenderStages(stages)) == stages
  {
    if stages != [] {
      var tail := stages[1..];
      TokenizeCons(stages[0], RenderStages(tail));
      assert forall n :: 0 <= n < |tail| ==> WellFormedStage(tail[n]) by {
        forall n | 0 <= n < |tail| ensures WellFormedStage(tail[n]) {
          assert tail[n] == stages[n + 1];
        }
      }
      TokenizeRender(tail);
      assert stages == [stages[0]] + tail;
    }
  }

  /** A well-formed record followed by a blank tokenizes to that record, then whatever
      follows tokenizes as on its own. */
  lemma TokenizeCons(st: Stage, rest: string)
    requires WellFormedStage(st)
    ensures Tokenize(st.handlerName + st.operator + " " + rest) == [st] + Tokenize(rest)
  {
    var t := st.handlerName + st.operator + " ";
    TokenizeHead(st, rest);
    TokenizeFromShift(t, rest, 0);
    assert TokenizeFrom(t + rest, |t|) == TokenizeFrom(rest, 0);
  }

  lemma {:induction false} OpEndFrom(s: string, i: nat, j: nat)
    requires i <= j < |s|
    requires forall k :: i <= k < j ==> IsChainOp(s[k])
    requires !IsChainOp(s[j])
    ensures OpEnd(s, i) == j
    decreases j - i
  {
    if i < j { OpEndFrom(s, i + 1, j); }
  }
}
