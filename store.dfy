/** The reactive store of a module: a key/value map written through a set trap that
    notifies the listeners of the written key synchronously, a read-only view, and
    per-key listener sets. */
module ReactiveStore {
  import opened Wrappers
  import opened JsStrings
  import opened JsValues

  /** A listener callback, known by identity: the relay a view subscribes for one of its
      keys, or any other function. */
  datatype Listener = Relay(serial: nat, key: string) | External(id: nat)

  /** One synchronous call `callback(value)` made by notify. */
  datatype Notification = Notification(listener: Listener, value: Value)

  predicate NoDuplicates<T(==)>(s: seq<T>) {
    forall i, j :: 0 <= i < j < |s| ==> s[i] != s[j]
  }

  /** Whether `sub` occurs in `s`, as String.prototype.includes. */
  predicate Contains(s: string, sub: string)
    decreases |s|
  {
    StartsWith(s, sub) || (s != [] && Contains(s[1..], sub))
  }

  const ObjectKeyMarker: string := "[object Object]"

  predicate IsHexDigit(c: char) {
    IsAsciiDigit(c) || ('a' <= c <= 'f') || ('A' <= c <= 'F')
  }

  /** `!isNaN(parseInt(key))`: after leading whitespace and an optional sign, a hex
      digit after a `0x` prefix or else a decimal digit. */
  predicate ParsesAsInt(key: string) {
    var t := TrimStart(key);
    var u := if t != [] && (t[0] == '+' || t[0] == '-') then t[1..] else t;
    if |u| >= 2 && u[0] == '0' && (u[1] == 'x' || u[1] == 'X') then |u| >= 3 && IsHexDigit(u[2])
    else u != [] && IsAsciiDigit(u[0])
  }

  // ---------------------------------------------------------------------------
  // `ToNumber` on strings, as far as whole numbers go (section 7.1.4.1 of ECMA-262)

  /** A digit's value in radix up to 16, and 16 for anything that is no digit. */
  function DigitValue(c: char): (d: nat)
    ensures d <= 16
    ensures IsAsciiDigit(c) ==> d == c as int - '0' as int
  {
    if IsAsciiDigit(c) then c as int - '0' as int
    else if 'a' <= c <= 'f' then c as int - 'a' as int + 10
    else if 'A' <= c <= 'F' then c as int - 'A' as int + 10
    else 16
  }

  predicate RadixDigits(s: string, radix: nat) {
    forall i :: 0 <= i < |s| ==> DigitValue(s[i]) < radix
  }

  /** The value of a digit string in a radix, most significant digit first. */
  function RadixValue(s: string, radix: nat): nat
    decreases |s|
  {
    if s == [] then 0 else radix * RadixValue(s[..|s| - 1], radix) + DigitValue(s[|s| - 1])
  }

  function Pow10(e: nat): (p: nat)
    ensures p >= 1
  {
    if e == 0 then 1 else 10 * Pow10(e - 1)
  }

  /** An optionally signed decimal integer: the exponent of a decimal literal. */
  function SignedDigits(s: string): Option<int> {
    var neg := s != [] && s[0] == '-';
    var u := if s != [] && (s[0] == '+' || s[0] == '-') then s[1..] else s;
    if u != [] && AllDigits(u) then Some(if neg then 0 - RadixValue(u, 10) else RadixValue(u, 10))
    else None
  }

  /** An unsigned decimal literal, `digits [. digits] [e exp]` or `. digits [e exp]`, as
      `(m, e)` standing for m * 10^e. */
  function DecimalLiteral(body: string): Option<(nat, int)> {
    var k := if IndexOf(body, 'e') <= IndexOf(body, 'E') then IndexOf(body, 'e') else IndexOf(body, 'E');
    var mantissa := body[..k];
    var exponent := if k < |body| then SignedDigits(body[k + 1..]) else Some(0);
    var dot := IndexOf(mantissa, '.');
    var intPart := mantissa[..dot];
    var fracPart := if dot < |mantissa| then mantissa[dot + 1..] else "";
    if exponent.Some? && AllDigits(intPart) && AllDigits(fracPart) && |intPart| + |fracPart| >= 1 then
      Some((RadixValue(intPart + fracPart, 10), exponent.value - |fracPart|))
    else None
  }

  /** The whole number m * 10^e stands for, if it is one. */
  function ScaledInteger(m: nat, e: int): Option<nat> {
    if e >= 0 then Some(m * Pow10(e))
    else if m % Pow10(-e) == 0 then Some(m / Pow10(-e))
    else None
  }

  /** The integer `Number(s)` yields, when it yields one: surrounding whitespace is
      dropped and the empty string is 0; `0x`, `0o` and `0b` introduce an unsigned
      integer in radix 16, 8 and 2; otherwise an optionally signed decimal literal counts
      when its value is a whole number. `Infinity`, a fraction and anything else do not. */
  function StringToInteger(s: string): (r: Option<int>)
    ensures Trim(s) == "" ==> r == Some(0)
  {
    var t := Trim(s);
    if t == "" then Some(0)
    else if |t| > 2 && t[0] == '0' && (t[1] == 'x' || t[1] == 'X') then
      if RadixDigits(t[2..], 16) then Some(RadixValue(t[2..], 16)) else None
    else if |t| > 2 && t[0] == '0' && (t[1] == 'o' || t[1] == 'O') then
      if RadixDigits(t[2..], 8) then Some(RadixValue(t[2..], 8)) else None
    else if |t| > 2 && t[0] == '0' && (t[1] == 'b' || t[1] == 'B') then
      if RadixDigits(t[2..], 2) then Some(RadixValue(t[2..], 2)) else None
    else
      var neg := t[0] == '-';
      var body := if t[0] == '+' || t[0] == '-' then t[1..] else t;
      match DecimalLiteral(body)
      case None => None
      case Some((m, e)) =>
        match ScaledInteger(m, e)
        case None => None
        case Some(n) => Some(if neg then 0 - n else n)
  }

  /** A string of decimal digits, with whitespace around it, converts to its value. */
  lemma StringToIntegerDigits(s: string)
    requires Trim(s) != "" && AllDigits(Trim(s))
    ensures StringToInteger(s) == Some(RadixValue(Trim(s), 10))
  {
    var t := Trim(s);
    assert IndexOf(t, 'e') == |t| && IndexOf(t, 'E') == |t|;
    assert t[..|t|] == t;
    assert IndexOf(t, '.') == |t|;
    assert t + "" == t;
    assert DecimalLiteral(t) == Some((RadixValue(t, 10), 0));
  }

  /** Array lengths are 32-bit: an assigned length must be below 2^32. */
  const LengthBound: nat := 0x1_0000_0000

  /** The length an array `length` assignment takes: the value converted by `ToNumber`
      must be a whole number below 2^32, or the assignment throws a RangeError. An array
      converts through its string form (`[]` is 0, `[3]` is 3), booleans and null to 0
      or 1, and undefined, objects, functions and promises to NaN. */
  function ArrayLength(v: Value): (r: Option<nat>)
    ensures r.Some? ==> r.value < LengthBound
    ensures v.Num? ==> (r.Some? <==> 0 <= v.n < LengthBound) && (r.Some? ==> r.value == v.n)
    ensures v.Str? && StringToInteger(v.s).Some? && 0 <= StringToInteger(v.s).value < LengthBound ==>
      r == Some(StringToInteger(v.s).value)
    ensures v.Str? && !(StringToInteger(v.s).Some? && 0 <= StringToInteger(v.s).value < LengthBound) ==> r.None?
    ensures v == Undefined || v.Obj? || v.Func? || v.Promise? ==> r.None?
  {
    match v
    case Num(n) => if 0 <= n < LengthBound then Some(n) else None
    case Bool(b) => Some(if b then 1 else 0)
    case Null => Some(0)
    case Str(s) => StringLength(s)
    case Arr(_) => StringLength(Stringify(v))
    case _ => None
  }

  function StringLength(s: string): Option<nat> {
    match StringToInteger(s)
    case Some(n) => if 0 <= n < LengthBound then Some(n) else None
    case None => None
  }

  /** An array assigned as a length converts through its string form. */
  lemma ArrayLengthOfArray(elems: seq<Value>)
    ensures ArrayLength(Arr(elems)) == ArrayLength(Str(JoinElements(elems)))
  {
  }

  /** `ToNumber` reads a radix prefix and a sign. */
  lemma ArrayLengthHex()
    ensures ArrayLength(Str("0x10")) == Some(16)
  {
    TrimNoWhitespace("0x10");
    assert "0x10"[2..] == "10" && "10"[..1] == "1" && "1"[..0] == "";
    assert RadixDigits("10", 16) && RadixValue("10", 16) == 16;
  }

  lemma ArrayLengthSign()
    ensures ArrayLength(Str("+5")) == Some(5)
  {
    TrimNoWhitespace("+5");
    assert IndexOf("5", 'e') == 1 && IndexOf("5", 'E') == 1 && "5"[..1] == "5" && IndexOf("5", '.') == 1;
    assert "5" + "" == "5" && "5"[..0] == "" && RadixValue("5", 10) == 5;
    assert DecimalLiteral("5") == Some((5, 0));
  }

  /** A decimal literal counts when its value is whole, through a fraction or an
      exponent, and not otherwise. */
  lemma ArrayLengthFraction()
    ensures ArrayLength(Str("3.0")) == Some(3)
  {
    TrimNoWhitespace("3.0");
    assert IndexOf("3.0", 'e') == 3 && IndexOf("3.0", 'E') == 3 && "3.0"[..3] == "3.0" && IndexOf("3.0", '.') == 1;
    assert "3.0"[..1] + "3.0"[2..] == "30" && RadixValue("30", 10) == 30;
    assert DecimalLiteral("3.0") == Some((30, -1));
    assert Pow10(1) == 10 && ScaledInteger(30, -1) == Some(3);
    assert StringToInteger("3.0") == Some(3);
  }

  lemma ArrayLengthExponent()
    ensures ArrayLength(Str("1e3")) == Some(1000)
  {
    TrimNoWhitespace("1e3");
    assert IndexOf("1e3", 'e') == 1 && IndexOf("1e3", 'E') == 3 && "1e3"[..1] == "1";
    assert SignedDigits("3") == Some(3);
    assert DecimalLiteral("1e3") == Some((1, 3));
  }

  lemma ArrayLengthNotWhole()
    ensures ArrayLength(Str("3.5")) == None
  {
    TrimNoWhitespace("3.5");
    assert IndexOf("3.5", 'e') == 3 && IndexOf("3.5", 'E') == 3 && "3.5"[..3] == "3.5" && IndexOf("3.5", '.') == 1;
    assert "3.5"[..1] + "3.5"[2..] == "35" && RadixValue("35", 10) == 35;
    assert DecimalLiteral("3.5") == Some((35, -1));
    assert Pow10(1) == 10 && ScaledInteger(35, -1) == None;
    assert StringToInteger("3.5") == None;
  }

  /** An array converts through its string form, and 2^32 is too long. */
  lemma ArrayLengthOthers()
    ensures ArrayLength(Arr([])) == Some(0)
    ensures ArrayLength(Arr([Num(3)])) == Some(3)
    ensures ArrayLength(Num(LengthBound)) == None
  {
    assert Stringify(Arr([Num(3)])) == NatToString(3) == "3";
    TrimNoWhitespace("3");
    StringToIntegerDigits("3");
    assert "3"[..0] == "" && RadixValue("3", 10) == 3;
  }

  /** `array.length = n`: truncation or extension with holes (read as undefined). */
  function Resize(elems: seq<Value>, n: nat): (r: seq<Value>)
    ensures |r| == n
    ensures forall i :: 0 <= i < n && i < |elems| ==> r[i] == elems[i]
    ensures forall i :: |elems| <= i < n ==> r[i] == Undefined
  {
    if n <= |elems| then elems[..n] else elems + seq(n - |elems|, _ => Undefined)
  }

  /** `array[i] = value` for an index: the array grows to hold it when needed. */
  function SetIndex(elems: seq<Value>, i: nat, value: Value): (r: seq<Value>)
    ensures |r| == if i < |elems| then |elems| else i + 1
    ensures r[i] == value
    ensures forall j :: 0 <= j < |elems| && j != i ==> r[j] == elems[j]
  {
    if i < |elems| then elems[i := value] else Resize(elems, i) + [value]
  }

  /** The outcome of `target[key] = value` on an array target through the set trap:
      the new elements, and the value the listeners of `key` receive. `length` and keys
      `parseInt` reads a number from take the array branch and pass the array itself;
      other keys take the object branch, which refuses `[object Object]`. Only an array
      index (a canonical key below 2^32 - 1) stores an element; the length stays below
      2^32. */
  function ArraySet(elems: seq<Value>, key: string, value: Value): (r: Result<(seq<Value>, Value)>)
    ensures r.Ok? && (key == "length" || ParsesAsInt(key)) ==> r.value.1 == Arr(r.value.0)
    ensures r.Ok? && !(key == "length" || ParsesAsInt(key)) ==> r.value == (elems, value)
    ensures r.Ok? && |elems| < LengthBound ==> |r.value.0| < LengthBound
    ensures r.Ok? && key != "length" && !(CanonicalIndex(key).Some? && CanonicalIndex(key).value < LengthBound - 1) ==>
      r.value.0 == elems
    ensures key == "length" && r.Ok? ==> ArrayLength(value).Some? && r.value.0 == Resize(elems, ArrayLength(value).value)
    ensures r.Err? <==> (key == "length" && ArrayLength(value).None?)
                        || (key != "length" && !ParsesAsInt(key) && Contains(key, ObjectKeyMarker))
  {
    if key == "length" then
      match ArrayLength(value)
      case None => Err(RangeError)
      case Some(n) => var e := Resize(elems, n); Ok((e, Arr(e)))
    else if ParsesAsInt(key) then
      match CanonicalIndex(key)
      case Some(i) =>
        if i < LengthBound - 1 then var e := SetIndex(elems, i, value); Ok((e, Arr(e)))
        else Ok((elems, Arr(elems)))
      case None => Ok((elems, Arr(elems)))
    else if Contains(key, ObjectKeyMarker) then Err(TypeError)
    else Ok((elems, value))
  }

  lemma CanonicalParses(key: string)
    requires CanonicalIndex(key).Some?
    ensures ParsesAsInt(key)
  {
    assert |key| >= 1 && IsAsciiDigit(key[0]);
    assert TrimStart(key) == key;
  }

  /** An index write at the current length appends the element, and the `length` write
      of the new length that follows keeps the grown array. */
  lemma ArraySetAppend(elems: seq<Value>, item: Value)
    requires |elems| < LengthBound - 1
    ensures ArraySet(elems, NatToString(|elems|), item) == Ok((elems + [item], Arr(elems + [item])))
    ensures ArraySet(elems + [item], "length", Num(|elems| + 1)) == Ok((elems + [item], Arr(elems + [item])))
  {
    var grown := elems + [item];
    assert ArraySet(elems, NatToString(|elems|), item) == Ok((grown, Arr(grown))) by {
      assert SetIndex(elems, |elems|, item) == grown by {
        assert Resize(elems, |elems|) == elems;
      }
      ArraySetIndex(elems, |elems|, item);
    }
    assert ArraySet(grown, "length", Num(|grown|)) == Ok((grown, Arr(grown))) by {
      ArraySetLength(grown, |grown|);
      assert Resize(grown, |grown|) == grown;
    }
  }

  /** A `length` write of an accepted length resizes the array and passes it on. */
  lemma ArraySetLength(elems: seq<Value>, n: nat)
    requires n < LengthBound
    ensures ArraySet(elems, "length", Num(n)) == Ok((Resize(elems, n), Arr(Resize(elems, n))))
  {
    assert ArrayLength(Num(n)) == Some(n);
  }

  /** An index write stores the element (growing the array when needed) and passes the
      whole new array to the listeners of the index key; a key of 2^32 - 1 or more is no
      array index and leaves the elements alone. */
  lemma ArraySetIndex(elems: seq<Value>, i: nat, value: Value)
    ensures var e := SetIndex(elems, i, value);
      i < LengthBound - 1 ==> ArraySet(elems, NatToString(i), value) == Ok((e, Arr(e)))
    ensures i >= LengthBound - 1 ==> ArraySet(elems, NatToString(i), value) == Ok((elems, Arr(elems)))
  {
    IndexRoundTrip(i);
    CanonicalParses(NatToString(i));
    assert NatToString(i) != "length" by {
      assert IsAsciiDigit(NatToString(i)[0]);
    }
  }

  class ModuleState {
    /** The object the reactive proxy wraps. */
    var store: map<string, Value>
    /** Per key, the listener set in insertion order. */
    var listeners: map<string, seq<Listener>>

    ghost predicate Valid()
      reads this
    {
      forall k :: k in listeners ==> NoDuplicates(listeners[k])
    }

    constructor (initial: map<string, Value>)
      ensures Valid()
      ensures store == initial && listeners == map[]
    {
      store := initial;
      listeners := map[];
    }

    /** `new ModuleState(initialState)`: an omitted or undefined initial state takes the
        default `{}`; anything else but a non-null object is refused. An array is kept as
        its index entries. */
    static method Create(initial: Value) returns (r: Result<ModuleState>)
      ensures r.Err? <==> !IsObjectLike(initial) && initial != Undefined
      ensures r.Err? ==> r.error == InvalidInitialState
      ensures r.Ok? ==> fresh(r.value) && r.value.Valid() && r.value.listeners == map[]
      ensures r.Ok? && initial == Undefined ==> r.value.store == map[]
      ensures r.Ok? && initial.Obj? ==> r.value.store == initial.fields
      ensures r.Ok? && initial.Arr? ==> r.value.store == IndexEntries(initial.elems)
    {
      if initial != Undefined && !IsObjectLike(initial) {
        return Err(InvalidInitialState);
      }
      var fields: map<string, Value> := map[];
      if initial.Obj? {
        fields := initial.fields;
      } else if initial.Arr? {
        fields := IndexEntries(initial.elems);
      }
      var s := new ModuleState(fields);
      return Ok(s);
    }

    /** The calls notify makes for `key`: each listener of the key, in insertion order,
        with the value. */
    function Notifications(key: string, value: Value): (ns: seq<Notification>)
      reads this
      ensures key !in listeners ==> ns == []
      ensures key in listeners ==> (|ns| == |listeners[key]|
        && forall i :: 0 <= i < |ns| ==> ns[i] == Notification(listeners[key][i], value))
    {
      if key in listeners then
        var ls := listeners[key];
        seq(|ls|, i requires 0 <= i < |ls| => Notification(ls[i], value))
      else []
    }

    /** A get through the reactive proxy (returning a wrapper for object values, which
        reads the same). */
    function Get(key: string): (v: Value)
      reads this
      ensures key in store ==> v == store[key]
      ensures key !in store ==> v == Undefined
    {
      GetProp(Obj(store), key)
    }

    /** setState, through the set trap on the root object: a key holding
        `[object Object]` makes the trap return false, which throws in strict code;
        any other key is stored and its listeners are called with the value. */
    method SetState(key: string, value: Value) returns (r: Result<seq<Notification>>)
      modifies this
      ensures listeners == old(listeners)
      ensures r.Err? <==> Contains(key, ObjectKeyMarker)
      ensures r.Err? ==> r.error == TypeError && store == old(store)
      ensures r.Ok? ==> store == old(store)[key := value] && r.value == Notifications(key, value)
    {
      if Contains(key, ObjectKeyMarker) {
        return Err(TypeError);
      }
      store := store[key := value];
      var calls := Notify(key, value);
      r := Ok(calls);
    }

    /** notify: the listener set of `key` is walked in insertion order, each callback
        called with the value; a key nobody listens to calls nothing. */
    method Notify(key: string, value: Value) returns (calls: seq<Notification>)
      ensures calls == Notifications(key, value)
    {
      calls := [];
      if key !in listeners {
        return;
      }
      var ls := listeners[key];
      var i := 0;
      while i < |ls|
        invariant 0 <= i <= |ls|
        invariant |calls| == i
        invariant forall j :: 0 <= j < i ==> calls[j] == Notification(ls[j], value)
      {
        calls := calls + [Notification(ls[i], value)];
        i := i + 1;
      }
    }

    /** A write `state[outer][key] = value` reaching a nested value through the proxy
        that the get trap returns (also reachable from the read-only view, whose traps
        cover only its own level). The trap of the nested proxy notifies under `key`, not
        under `outer`. A promise is wrapped too, and its trap takes the object branch on a
        property the model does not keep; a function is returned bare, so the write goes
        to the function and nobody is notified. */
    method SetNested(outer: string, key: string, value: Value) returns (r: Result<seq<Notification>>)
      modifies this
      ensures listeners == old(listeners)
      ensures r.Err? ==> store == old(store)
      ensures !IsObjectLike(old(Get(outer))) && !old(Get(outer)).Func? ==> r == Err(TypeError)
      ensures r.Ok? && old(Get(outer)).Obj? ==>
        store == old(store)[outer := Obj(old(Get(outer)).fields[key := value])]
        && r.value == Notifications(key, value)
      ensures r.Ok? && old(Get(outer)).Arr? ==>
        var a := ArraySet(old(Get(outer)).elems, key, value);
        a.Ok? && store == old(store)[outer := Arr(a.value.0)] && r.value == Notifications(key, a.value.1)
      ensures old(Get(outer)).Obj? ==> (r.Err? <==> Contains(key, ObjectKeyMarker))
      ensures old(Get(outer)).Arr? ==> (r.Err? <==> ArraySet(old(Get(outer)).elems, key, value).Err?)
      ensures r.Ok? && (old(Get(outer)).Promise? || old(Get(outer)).Func?) ==> store == old(store)
      ensures old(Get(outer)).Promise? ==>
        (r.Err? <==> Contains(key, ObjectKeyMarker)) && (r.Ok? ==> r.value == Notifications(key, value))
      ensures old(Get(outer)).Func? ==> r == Ok([])
    {
      var target := Get(outer);
      match target {
        case Obj(fields) =>
          if Contains(key, ObjectKeyMarker) {
            return Err(TypeError);
          }
          store := store[outer := Obj(fields[key := value])];
          var calls := Notify(key, value);
          r := Ok(calls);
        case Arr(elems) =>
          var a := ArraySet(elems, key, value);
          if a.Err? {
            return Err(a.error);
          }
          store := store[outer := Arr(a.value.0)];
          var calls := Notify(key, a.value.1);
          r := Ok(calls);
        case Promise(_) =>
          if Contains(key, ObjectKeyMarker) {
            return Err(TypeError);
          }
          var calls := Notify(key, value);
          r := Ok(calls);
        case Func(_, _) =>
          r := Ok([]);
        case _ =>
          r := Err(TypeError);
      }
    }

    /** A write through the read-only view returned by getState: it throws and nothing changes. */
    method ViewWrite(key: string, value: Value) returns (o: Outcome)
      ensures o == Fail(ImmutableViolation)
    {
      o := Fail(ImmutableViolation);
    }

    /** A delete through the read-only view, or through the store itself: both traps throw. */
    method DeleteProperty(key: string) returns (o: Outcome)
      ensures o == Fail(ImmutableViolation)
    {
      o := Fail(ImmutableViolation);
    }

    /** listen: a non-function is refused; a callback already in the key's set is not
        added again. */
    method Listen(key: string, callback: Option<Listener>) returns (o: Outcome)
      requires Valid()
      modifies this
      ensures Valid()
      ensures store == old(store)
      ensures o.Fail? <==> callback.None?
      ensures o.Fail? ==> o.error == NotCallable && listeners == old(listeners)
      ensures callback.Some? ==> (key in listeners
        && listeners == old(listeners)[key := Added(if key in old(listeners) then old(listeners)[key] else [], callback.value)])
    {
      if callback.None? {
        return Fail(NotCallable);
      }
      var current := if key in listeners then listeners[key] else [];
      listeners := listeners[key := Added(current, callback.value)];
      o := Pass;
    }

    /** destroy: the listener table is emptied, the stored values stay. */
    method Destroy()
      modifies this
      ensures store == old(store) && listeners == map[] && Valid()
      ensures forall k, v :: Notifications(k, v) == []
    {
      listeners := map[];
    }
  }

  /** The own enumerable entries of an array: its indices, rendered in decimal. */
  function IndexEntries(elems: seq<Value>): (m: map<string, Value>)
    ensures forall i :: 0 <= i < |elems| ==> NatToString(i) in m && m[NatToString(i)] == elems[i]
    decreases |elems|
  {
    if elems == [] then map[]
    else
      var init := elems[..|elems| - 1];
      var m0 := IndexEntries(init);
      assert forall i :: 0 <= i < |init| ==> NatToString(i) != NatToString(|elems| - 1) by {
        forall i | 0 <= i < |init| ensures NatToString(i) != NatToString(|elems| - 1) {
          if NatToString(i) == NatToString(|elems| - 1) { NatToStringInjective(i, |elems| - 1); }
        }
      }
      m0[NatToString(|elems| - 1) := elems[|elems| - 1]]
  }

  /** `Set.prototype.add`: appended when absent, otherwise the set is unchanged. */
  function Added(s: seq<Listener>, l: Listener): (r: seq<Listener>)
    ensures l in r && (forall x :: x in r <==> x in s || x == l)
    ensures l in s ==> r == s
    ensures l !in s ==> r == s + [l]
    ensures NoDuplicates(s) ==> NoDuplicates(r)
  {
    if l in s then s else s + [l]
  }

  /** Adding a listener twice is adding it once. */
  lemma AddedIdempotent(s: seq<Listener>, l: Listener)
    ensures Added(Added(s, l), l) == Added(s, l)
  {
  }
}
