/** The JavaScript values the engine moves between elements, handlers and the store,
    with the three tests the source applies to them: truthiness, the "invalid" check
    of the chain operators (`=== null || === undefined || === ''`), and `typeof === 'object'`. */
module JsValues {
  import opened Wrappers
  import opened JsStrings

  /** Numbers are integers (floating point is not modelled). A function or a promise is
      known by an identity; `isAsync` records whether `constructor.name` is 'AsyncFunction'. */
  datatype Value =
    | Undefined
    | Null
    | Bool(b: bool)
    | Num(n: int)
    | Str(s: string)
    | Arr(elems: seq<Value>)
    | Obj(fields: map<string, Value>)
    | Func(fid: nat, isAsync: bool)
    | Promise(pid: nat)

  /** JavaScript truthiness (NaN and -0 are not modelled). */
  predicate Truthy(v: Value) {
    match v
    case Undefined => false
    case Null => false
    case Bool(b) => b
    case Num(n) => n != 0
    case Str(s) => s != ""
    case _ => true
  }

  /** The "invalid newValue" test of the `&` and `#` operators. */
  predicate IsInvalid(v: Value) {
    v == Undefined || v == Null || v == Str("")
  }

  /** Every invalid value is falsy (the converse fails for `false` and `0`). */
  lemma InvalidIsFalsy(v: Value)
    requires IsInvalid(v)
    ensures !Truthy(v)
  {
  }

  /** `typeof v === 'object'` for a non-null `v`. */
  predicate IsObjectLike(v: Value) {
    v.Arr? || v.Obj? || v.Promise?
  }

  predicate IsNullish(v: Value) {
    v == Undefined || v == Null
  }

  /** The canonical array index a property key denotes, if any: decimal digits without
      a leading zero, the form NatToString produces. */
  function CanonicalIndex(k: string): (r: Option<nat>)
    ensures r.Some? ==> NatToString(r.value) == k
  {
    if |k| >= 1 && AllDigits(k) && (k == "0" || k[0] != '0') then
      CanonicalFromDigits(k);
      Some(DigitsValue(k))
    else None
  }

  lemma {:induction false} CanonicalFromDigits(k: string)
    requires |k| >= 1 && AllDigits(k) && (k == "0" || k[0] != '0')
    ensures NatToString(DigitsValue(k)) == k
    decreases |k|
  {
    var init := k[..|k| - 1];
    var d := k[|k| - 1] as int - '0' as int;
    var n := DigitsValue(k);
    assert n == 10 * DigitsValue(init) + d;
    assert DigitChar(d) == k[|k| - 1];
    if |k| == 1 {
      assert NatToString(n) == [DigitChar(d)];
    } else {
      assert init[0] == k[0];
      CanonicalFromDigits(init);
      assert DigitsValue(init) >= 1 by {
        LeadingNonZeroPositive(init);
      }
      TenfoldStep(DigitsValue(init), d);
      assert NatToString(n) == NatToString(DigitsValue(init)) + [DigitChar(d)];
      assert k == init + [k[|k| - 1]];
    }
  }

  /** Dividing `10 * a + d` by ten recovers `a` and the digit `d`. */
  lemma TenfoldStep(a: nat, d: nat)
    requires a >= 1 && d < 10
    ensures 10 * a + d >= 10
    ensures (10 * a + d) / 10 == a && (10 * a + d) % 10 == d
    ensures NatToString(10 * a + d) == NatToString(a) + [DigitChar(d)]
  {
  }

  lemma LeadingNonZeroPositive(s: string)
    requires |s| >= 1 && AllDigits(s) && s[0] != '0'
    ensures DigitsValue(s) >= 1
  {
    if DigitsValue(s) == 0 {
      NatToStringOfZeroDigits(s);
    }
  }

  lemma {:induction false} NatToStringOfZeroDigits(s: string)
    requires |s| >= 1 && AllDigits(s) && DigitsValue(s) == 0
    ensures s[0] == '0'
    decreases |s|
  {
    if |s| > 1 {
      NatToStringOfZeroDigits(s[..|s| - 1]);
    }
  }

  /** Every index renders back to itself. */
  lemma IndexRoundTrip(i: nat)
    ensures CanonicalIndex(NatToString(i)) == Some(i)
  {
    NatToStringRoundTrip(i);
  }

  /** A property read `v[k]` on a value that is not null or undefined. Reads of string
      indices and of built-in prototype members are not modelled and yield undefined. */
  function GetProp(v: Value, k: string): (r: Value)
    ensures v.Obj? ==> r == (if k in v.fields then v.fields[k] else Undefined)
    ensures !IsObjectLike(v) && !v.Str? ==> r == Undefined
  {
    match v
    case Obj(fields) => if k in fields then fields[k] else Undefined
    case Arr(elems) =>
      if k == "length" then Num(|elems|)
      else (match CanonicalIndex(k)
            case Some(i) => if i < |elems| then elems[i] else Undefined
            case None => Undefined)
    case Str(s) => if k == "length" then Num(Utf16Length(s)) else Undefined
    case _ => Undefined
  }

  /** A property read that throws (TypeError) on null or undefined, as `v.k` does. */
  function ReadProp(v: Value, k: string): (r: Result<Value>)
    ensures r.Err? <==> IsNullish(v)
    ensures r.Ok? ==> r.value == GetProp(v, k)
  {
    if IsNullish(v) then Err(TypeError) else Ok(GetProp(v, k))
  }

  /** Reads of an array at the decimal key of an index yield that element and its
      `length` the element count; a write to an object field is read back, and the
      reads of every other key are as before. */
  lemma ReadPropReadsBack(xs: seq<Value>, i: nat, fields: map<string, Value>, k: string, x: Value, other: string)
    requires i < |xs|
    ensures ReadProp(Arr(xs), NatToString(i)) == Ok(xs[i])
    ensures ReadProp(Arr(xs), "length") == Ok(Num(|xs|))
    ensures ReadProp(Obj(fields[k := x]), k) == Ok(x)
    ensures other != k ==> ReadProp(Obj(fields[k := x]), other) == ReadProp(Obj(fields), other)
  {
    IndexRoundTrip(i);
    assert NatToString(i) != "length" by {
      assert CanonicalIndex("length") == None;
    }
  }

  /** `{result}`, the detail of a dispatched event. */
  function ResultDetail(result: Value): Value {
    Obj(map["result" := result])
  }

  /** Signed decimal rendering of an integer. */
  function IntToString(n: int): (s: string)
    ensures |s| >= 1
  {
    if n < 0 then "-" + NatToString(-n) else NatToString(n)
  }

  /** The text a template literal makes of a value (a function's source text is not
      modelled and reads as "function"). */
  function Stringify(v: Value): (s: string)
    ensures v.Str? ==> s == v.s
    decreases v, 1
  {
    match v
    case Undefined => "undefined"
    case Null => "null"
    case Bool(b) => if b then "true" else "false"
    case Num(n) => IntToString(n)
    case Str(s) => s
    case Arr(elems) => JoinElements(elems)
    case Obj(_) => "[object Object]"
    case Func(_, _) => "function"
    case Promise(_) => "[object Promise]"
  }

  /** Array.prototype.join(','): null and undefined elements read as empty. */
  function JoinElements(elems: seq<Value>): string
    decreases elems, 0
  {
    if elems == [] then ""
    else
      var head := if IsNullish(elems[0]) then "" else Stringify(elems[0]);
      if |elems| == 1 then head else head + "," + JoinElements(elems[1..])
  }
}
