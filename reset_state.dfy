/** resetState: copies a module's initial `props` back, either into its `dataset`
    (plain keys) or into the object a dotted key's parent path names inside `props`. */
module ResetState {
  import opened Wrappers
  import opened JsStrings
  import opened JsValues
  import opened ReactiveStore

  /** The reduce of resolveDotNotation, `acc && acc[part]` over the parts: once the
      accumulator is falsy it is the result. */
  function Resolve(v: Value, parts: seq<string>): (r: Value)
    ensures !Truthy(v) ==> r == v
    ensures parts == [] ==> r == v
    decreases |parts|
  {
    if parts == [] || !Truthy(v) then v else Resolve(GetProp(v, parts[0]), parts[1..])
  }

  /** resolveDotNotation(obj, path). */
  function ResolveDotNotation(v: Value, path: string): Value {
    Resolve(v, Split(path, '.'))
  }

  /** The parent path rebuilt by `keysArray.join('.')` resolves as the parts themselves. */
  lemma ParentPathResolves(v: Value, parent: seq<string>)
    requires |parent| >= 1
    requires forall k :: 0 <= k < |parent| ==> '.' !in parent[k]
    ensures ResolveDotNotation(v, Join(parent, '.')) == Resolve(v, parent)
  {
    SplitJoin(parent, '.');
  }

  /** `Object.keys(props)`: the own keys of an object in their insertion order `order`,
      the indices of an array or a string, and none for other values. */
  function ObjectKeys(props: Value, order: seq<string>): (keys: seq<string>)
    ensures props.Obj? ==> keys == order
    ensures props.Arr? ==> |keys| == |props.elems|
  {
    match props
    case Obj(_) => order
    case Arr(elems) => seq(|elems|, (i: int) requires 0 <= i => NatToString(i))
    case Str(s) => seq(|s|, (i: int) requires 0 <= i => NatToString(i))
    case _ => []
  }

  /** `order` lists the own keys of `fields` once each. */
  predicate KeyOrder(order: seq<string>, fields: map<string, Value>) {
    NoDuplicates(order) && fields.Keys == set k | k in order
  }

  /** The key list after the two reassignments of `keys`: null (the default, so also an
      omitted argument) stands for every own key, a string for itself. The filter then
      calls `key.includes`, so a list entry that is not a string throws, as does a
      `keys` that has no `filter`. */
  function KeyList(keys: Value, props: Value, order: seq<string>): (r: Result<seq<string>>)
    ensures r.Err? ==> r.error == TypeError
    ensures IsNullish(keys) ==> r == Ok(ObjectKeys(props, order))
    ensures keys.Str? ==> r == Ok([keys.s])
    ensures (r.Ok? && keys.Arr?) <==> keys.Arr? && forall i :: 0 <= i < |keys.elems| ==> keys.elems[i].Str?
    ensures r.Ok? && keys.Arr? ==>
      |r.value| == |keys.elems| && forall i :: 0 <= i < |r.value| ==> keys.elems[i] == Str(r.value[i])
    ensures r.Err? <==> !(IsNullish(keys) || keys.Str? || (keys.Arr? && forall i :: 0 <= i < |keys.elems| ==> keys.elems[i].Str?))
  {
    match keys
    case Undefined => Ok(ObjectKeys(props, order))
    case Null => Ok(ObjectKeys(props, order))
    case Str(s) => Ok([s])
    case Arr(elems) =>
      if forall i :: 0 <= i < |elems| ==> elems[i].Str? then
        Ok(seq(|elems|, i requires 0 <= i < |elems| => elems[i].s))
      else Err(TypeError)
    case _ => Err(TypeError)
  }

  /** `key in props`: the own keys of an object, `length` and the indices of an array;
      the `in` operator throws on a primitive. */
  function HasProperty(props: Value, key: string): (r: Result<bool>)
    ensures r.Err? <==> !IsObjectLike(props) && !props.Func?
    ensures r.Err? ==> r.error == TypeError
    ensures props.Obj? ==> r == Ok(key in props.fields)
  {
    match props
    case Obj(fields) => Ok(key in fields)
    case Arr(elems) =>
      Ok(key == "length" || (CanonicalIndex(key).Some? && CanonicalIndex(key).value < |elems|))
    case Promise(_) => Ok(false)
    case Func(_, _) => Ok(false)
    case _ => Err(TypeError)
  }

  /** The filter's test for one key: a dotted key must resolve to something other than
      undefined, a plain key must be a property of `props`. */
  function Selected(props: Value, key: string): Result<bool> {
    if '.' in key then Ok(ResolveDotNotation(props, key) != Undefined) else HasProperty(props, key)
  }

  /** `a` is `b` with some entries dropped, order kept. */
  predicate Subsequence<T(==)>(a: seq<T>, b: seq<T>)
    decreases |b|
  {
    a == [] || (b != [] && ((a[0] == b[0] && Subsequence(a[1..], b[1..])) || Subsequence(a, b[1..])))
  }

  /** keysToReset: the keys that pass the test, in their original order; a test that
      throws makes the whole filter throw. */
  function SelectKeys(props: Value, keys: seq<string>): (r: Result<seq<string>>)
    ensures r.Err? <==> exists k :: k in keys && Selected(props, k).Err?
    ensures r.Err? ==> r.error == TypeError
    ensures r.Ok? ==> Subsequence(r.value, keys)
    ensures r.Ok? ==> forall k :: k in r.value <==> k in keys && Selected(props, k) == Ok(true)
  {
    if keys == [] then Ok([])
    else
      match Selected(props, keys[0])
      case Err(e) => Err(e)
      case Ok(keep) =>
        match SelectKeys(props, keys[1..])
        case Err(e) =>
          assert exists k :: k in keys && Selected(props, k).Err? by {
            var k :| k in keys[1..] && Selected(props, k).Err?;
            assert k in keys;
          }
          Err(e)
        case Ok(rest) =>
          assert forall k :: k in keys <==> k == keys[0] || k in keys[1..];
          if keep then Ok([keys[0]] + rest) else Ok(rest)
  }

  /** `target[k] = x` on a truthy target in strict-mode code: an object takes the key,
      an array its length or index; the own properties of functions and promises are
      not modelled; a primitive throws. */
  function Assign(target: Value, k: string, x: Value): (r: Result<Value>)
    ensures target.Obj? ==> r == Ok(Obj(target.fields[k := x]))
    ensures !IsObjectLike(target) && !target.Func? ==> r == Err(TypeError)
  {
    match target
    case Obj(fields) => Ok(Obj(fields[k := x]))
    case Arr(elems) =>
      if k == "length" then
        (match ArrayLength(x)
         case Some(n) => Ok(Arr(Resize(elems, n)))
         case None => Err(RangeError))
      else
        (match CanonicalIndex(k)
         case Some(i) => Ok(Arr(SetIndex(elems, i, x)))
         case None => Ok(target))
    case Promise(_) => Ok(target)
    case Func(_, _) => Ok(target)
    case _ => Err(TypeError)
  }

  /** `obj[last] = x` where `obj` is what `path` resolves to inside `v`, written back
      into `v`: a falsy `obj` is skipped, and the objects on the path are updated. */
  function WriteAt(v: Value, path: seq<string>, last: string, x: Value): (r: Result<Value>)
    ensures !Truthy(Resolve(v, path)) ==> r == Ok(v)
    decreases |path|
  {
    if !Truthy(v) then Ok(v)
    else if path == [] then Assign(v, last, x)
    else
      var p := path[0];
      match WriteAt(GetProp(v, p), path[1..], last, x)
      case Err(e) => Err(e)
      case Ok(child) =>
        if child == GetProp(v, p) then Ok(v)
        else if v.Obj? && p in v.fields then Ok(Obj(v.fields[p := child]))
        else if v.Arr? && CanonicalIndex(p).Some? && CanonicalIndex(p).value < |v.elems| then
          Ok(Arr(v.elems[CanonicalIndex(p).value := child]))
        else Ok(v)
  }

  /** `path` runs from `v` through object fields to an object. */
  predicate ObjectPath(v: Value, path: seq<string>)
    decreases |path|
  {
    v.Obj? && (path == [] || (path[0] in v.fields && ObjectPath(v.fields[path[0]], path[1..])))
  }

  /** Along an object path the write lands: the new `v` resolves `path + [last]` to `x`,
      and the path is still an object path. */
  lemma {:induction false} WriteThenResolve(v: Value, path: seq<string>, last: string, x: Value)
    requires ObjectPath(v, path)
    ensures WriteAt(v, path, last, x).Ok?
    ensures ObjectPath(WriteAt(v, path, last, x).value, path)
    ensures Resolve(WriteAt(v, path, last, x).value, path + [last]) == x
    decreases |path|
  {
    if path == [] {
      assert [last][1..] == [];
    } else {
      var p := path[0];
      WriteThenResolve(v.fields[p], path[1..], last, x);
      assert (path + [last])[1..] == path[1..] + [last];
    }
  }

  /** The parts of a dotted key before its last, and its last part. */
  function ParentParts(key: string): (parent: seq<string>)
    ensures |parent| + 1 == |Split(key, '.')| && parent == Split(key, '.')[..|parent|]
  {
    var parts := Split(key, '.');
    parts[..|parts| - 1]
  }

  function LastPart(key: string): string {
    var parts := Split(key, '.');
    parts[|parts| - 1]
  }

  // ---------------------------------------------------------------------------
  // The dataset setter (the DOMStringMap of the HTML standard, section 3.2.6.6)

  /** The XML Name production's NameStartChar and NameChar (XML 1.0, section 2.3). */
  predicate NameStartChar(c: char) {
    c == ':' || IsAsciiLetter(c) || c == '_'
    || ('\U{00C0}' <= c <= '\U{00D6}') || ('\U{00D8}' <= c <= '\U{00F6}') || ('\U{00F8}' <= c <= '\U{02FF}')
    || ('\U{0370}' <= c <= '\U{037D}') || ('\U{037F}' <= c <= '\U{1FFF}') || ('\U{200C}' <= c <= '\U{200D}')
    || ('\U{2070}' <= c <= '\U{218F}') || ('\U{2C00}' <= c <= '\U{2FEF}') || ('\U{3001}' <= c <= '\U{D7FF}')
    || ('\U{F900}' <= c <= '\U{FDCF}') || ('\U{FDF0}' <= c <= '\U{FFFD}') || ('\U{10000}' <= c <= '\U{EFFFF}')
  }

  predicate NameChar(c: char) {
    NameStartChar(c) || c == '-' || c == '.' || IsAsciiDigit(c) || c == '\U{00B7}'
    || ('\U{0300}' <= c <= '\U{036F}') || ('\U{203F}' <= c <= '\U{2040}')
  }

  predicate IsXmlName(s: string) {
    |s| >= 1 && NameStartChar(s[0]) && forall i :: 1 <= i < |s| ==> NameChar(s[i])
  }

  /** The key with each ASCII uppercase letter replaced by `-` and its lowercase letter. */
  function Dasherize(key: string): (r: string)
    decreases |key|
  {
    if key == [] then []
    else (if IsAsciiUpper(key[0]) then ['-', ToLowerChar(key[0])] else [key[0]]) + Dasherize(key[1..])
  }

  /** The attribute a dataset key names: `data-` and the dasherized key. */
  function DataAttributeName(key: string): string {
    "data-" + Dasherize(key)
  }

  /** A `-` followed by an ASCII lowercase letter, which the setter refuses. */
  predicate HyphenBeforeLower(key: string) {
    exists i :: 0 <= i < |key| - 1 && key[i] == '-' && IsAsciiLower(key[i + 1])
  }

  /** `dataset[key] = value` for a string value: a hyphen before a lowercase letter
      throws a SyntaxError; otherwise a key whose attribute is not an XML Name throws an
      InvalidCharacterError; otherwise the entry is set. */
  function DatasetSet(dataset: map<string, string>, key: string, value: string): (r: Result<map<string, string>>)
    ensures r.Ok? <==> !HyphenBeforeLower(key) && IsXmlName(DataAttributeName(key))
    ensures HyphenBeforeLower(key) ==> r == Err(SyntaxError)
    ensures !HyphenBeforeLower(key) && !IsXmlName(DataAttributeName(key)) ==> r == Err(InvalidCharacterError)
    ensures r.Ok? ==> r.value == dataset[key := value]
  {
    if HyphenBeforeLower(key) then Err(SyntaxError)
    else if !IsXmlName(DataAttributeName(key)) then Err(InvalidCharacterError)
    else Ok(dataset[key := value])
  }

  /** The dasherized key has only NameChars exactly when the key has (an uppercase
      letter and its replacements are all NameChars). */
  lemma {:induction false} DasherizeNameChars(key: string)
    ensures (forall i :: 0 <= i < |Dasherize(key)| ==> NameChar(Dasherize(key)[i]))
        <==> (forall i :: 0 <= i < |key| ==> NameChar(key[i]))
    decreases |key|
  {
    if key != [] {
      var tail := key[1..];
      DasherizeNameChars(tail);
      var d, rest := Dasherize(key), Dasherize(tail);
      var h := if IsAsciiUpper(key[0]) then 2 else 1;
      assert |d| == h + |rest| && d[h..] == rest;
      if IsAsciiUpper(key[0]) {
        assert d[0] == '-' && IsAsciiLower(d[1]);
        assert NameChar(d[0]) && NameChar(d[1]) && NameChar(key[0]);
      } else {
        assert d[0] == key[0];
      }
      if forall i :: 0 <= i < |key| ==> NameChar(key[i]) {
        assert forall i :: 0 <= i < |tail| ==> NameChar(tail[i]) by {
          forall i | 0 <= i < |tail| ensures NameChar(tail[i]) { assert tail[i] == key[i + 1]; }
        }
        forall i | h <= i < |d|
          ensures NameChar(d[i])
        {
          assert d[i] == rest[i - h];
        }
      }
      if forall i :: 0 <= i < |d| ==> NameChar(d[i]) {
        assert forall i :: 0 <= i < |rest| ==> NameChar(rest[i]) by {
          forall i | 0 <= i < |rest| ensures NameChar(rest[i]) { assert rest[i] == d[i + h]; }
        }
        forall i | 1 <= i < |key|
          ensures NameChar(key[i])
        {
          assert key[i] == tail[i - 1];
        }
      }
    }
  }

  /** The setter accepts a key exactly when it has no hyphen before a lowercase letter
      and every character of it is a NameChar: the `data-` prefix takes care of the
      first character. */
  lemma DatasetKeyAccepted(dataset: map<string, string>, key: string, value: string)
    ensures DatasetSet(dataset, key, value).Ok? <==>
      !HyphenBeforeLower(key) && forall i :: 0 <= i < |key| ==> NameChar(key[i])
  {
    DasherizeNameChars(key);
    var n := DataAttributeName(key);
    assert forall i :: 5 <= i < |n| ==> n[i] == Dasherize(key)[i - 5];
    assert NameChar(n[4]) && NameStartChar(n[0]);
    if forall i :: 0 <= i < |Dasherize(key)| ==> NameChar(Dasherize(key)[i]) {
      forall i | 1 <= i < |n|
        ensures NameChar(n[i])
      {
        if i >= 5 {
          assert n[i] == Dasherize(key)[i - 5];
        }
      }
    }
    if IsXmlName(n) {
      forall i | 0 <= i < |Dasherize(key)|
        ensures NameChar(Dasherize(key)[i])
      {
        assert n[i + 5] == Dasherize(key)[i];
      }
    }
  }

  /** A key the dataset setter accepts. */
  predicate DatasetKey(key: string) {
    !HyphenBeforeLower(key) && IsXmlName(DataAttributeName(key))
  }

  /** What one `forEach` step does to `props` and `dataset`. A plain key copies
      `props[key]` into the dataset (as a string: dataset values are strings), which
      throws for a key the setter refuses. A dotted key writes `props[key]`, the value
      under the whole dotted key, into the parent object its path names inside `props`,
      when that parent is truthy. */
  function ResetKey(props: Value, dataset: map<string, string>, key: string): (r: Result<(Value, map<string, string>)>)
    ensures '.' !in key && DatasetKey(key) ==> r == Ok((props, dataset[key := Stringify(GetProp(props, key))]))
    ensures '.' !in key && !DatasetKey(key) ==> r.Err? && r == Err(DatasetSet(dataset, key, "").error)
    ensures '.' in key && r.Ok? ==> r.value.1 == dataset
  {
    if '.' in key then
      var obj := ResolveDotNotation(props, Join(ParentParts(key), '.'));
      if Truthy(obj) then
        match WriteAt(props, ParentParts(key), LastPart(key), GetProp(props, key))
        case Err(e) => Err(e)
        case Ok(w) => Ok((w, dataset))
      else Ok((props, dataset))
    else
      match DatasetSet(dataset, key, Stringify(GetProp(props, key)))
      case Err(e) => Err(e)
      case Ok(d) => Ok((props, d))
  }

  /** A dotted key has at least two separator-free parts. */
  lemma DottedParts(key: string)
    requires '.' in key
    ensures |Split(key, '.')| >= 2
  {
    var i :| 0 <= i < |key| && key[i] == '.';
    assert IndexOf(key, '.') < |key|;
  }

  /** On a dotted key whose parent path runs through objects, the reset puts
      `props[key]` at the key's path. */
  lemma DottedResetLands(props: Value, dataset: map<string, string>, key: string)
    requires '.' in key
    requires ObjectPath(props, ParentParts(key))
    ensures ResetKey(props, dataset, key).Ok?
    ensures ResolveDotNotation(ResetKey(props, dataset, key).value.0, key) == GetProp(props, key)
  {
    DottedParts(key);
    PartsOfKey(key);
    var w := WriteAt(props, ParentParts(key), LastPart(key), GetProp(props, key));
    LandsAt(props, ParentParts(key), LastPart(key), GetProp(props, key));
    assert ResetKey(props, dataset, key) == Ok((w.value, dataset));
  }

  /** A key splits into its parent parts and its last part, none holding a dot. */
  lemma PartsOfKey(key: string)
    ensures ParentParts(key) + [LastPart(key)] == Split(key, '.')
    ensures forall k :: 0 <= k < |ParentParts(key)| ==> '.' !in ParentParts(key)[k]
  {
    var parts := Split(key, '.');
    assert parts[..|parts| - 1] + [parts[|parts| - 1]] == parts;
  }

  lemma LandsAt(props: Value, parent: seq<string>, last: string, x: Value)
    requires |parent| >= 1 && ObjectPath(props, parent)
    requires forall k :: 0 <= k < |parent| ==> '.' !in parent[k]
    ensures Truthy(ResolveDotNotation(props, Join(parent, '.')))
    ensures Truthy(Resolve(props, parent))
    ensures WriteAt(props, parent, last, x).Ok?
    ensures Resolve(WriteAt(props, parent, last, x).value, parent + [last]) == x
  {
    ParentPathResolves(props, parent);
    ObjectPathResolves(props, parent);
    WriteThenResolve(props, parent, last, x);
  }

  /** An object path resolves to the object it ends at, which is truthy. */
  lemma {:induction false} ObjectPathResolves(v: Value, path: seq<string>)
    requires ObjectPath(v, path)
    ensures Resolve(v, path).Obj?
    decreases |path|
  {
    if path != [] {
      ObjectPathResolves(v.fields[path[0]], path[1..]);
    }
  }

  /** As written, the value copied for `a.b` is `props['a.b']`, not `props.a.b`: when
      `props` has no top-level key spelled with the dot, the nested field becomes
      undefined. */
  lemma DottedResetClearsField(props: Value, dataset: map<string, string>, key: string)
    requires '.' in key && props.Obj? && key !in props.fields
    requires ObjectPath(props, ParentParts(key))
    ensures ResetKey(props, dataset, key).Ok?
    ensures ResolveDotNotation(ResetKey(props, dataset, key).value.0, key) == Undefined
  {
    DottedResetLands(props, dataset, key);
  }

  /** The state after the `forEach`: the writes of every key up to the first that
      throws, which aborts the rest and is reported. */
  datatype Progress = Progress(props: Value, dataset: map<string, string>, thrown: Option<Error>)

  function ResetKeys(props: Value, dataset: map<string, string>, keys: seq<string>): (p: Progress)
    ensures keys == [] ==> p == Progress(props, dataset, None)
  {
    if keys == [] then Progress(props, dataset, None)
    else
      var before := ResetKeys(props, dataset, keys[..|keys| - 1]);
      if before.thrown.Some? then before
      else
        match ResetKey(before.props, before.dataset, keys[|keys| - 1])
        case Err(e) => Progress(before.props, before.dataset, Some(e))
        case Ok((p, d)) => Progress(p, d, None)
  }

  /** The dataset after copying the props of `keys`, one after the other. */
  function Filled(props: Value, dataset: map<string, string>, keys: seq<string>): map<string, string> {
    if keys == [] then dataset
    else Filled(props, dataset, keys[..|keys| - 1])[keys[|keys| - 1] := Stringify(GetProp(props, keys[|keys| - 1]))]
  }

  /** With only plain keys the setter accepts nothing throws, `props` stays as it is
      and the dataset receives each key's prop in turn. */
  lemma {:induction false} PlainKeysReset(props: Value, dataset: map<string, string>, keys: seq<string>)
    requires forall i :: 0 <= i < |keys| ==> '.' !in keys[i] && DatasetKey(keys[i])
    ensures ResetKeys(props, dataset, keys) == Progress(props, Filled(props, dataset, keys), None)
  {
    if keys != [] {
      var init := keys[..|keys| - 1];
      PlainKeysReset(props, dataset, init);
      assert '.' !in keys[|keys| - 1] && DatasetKey(keys[|keys| - 1]);
    }
  }

  /** With plain keys, the first key the setter refuses throws its error: the keys
      before it have been copied and the keys after it are not reached. */
  lemma PlainKeysStopAtRefused(props: Value, dataset: map<string, string>, keys: seq<string>, j: nat)
    requires j < |keys| && forall i :: 0 <= i < |keys| ==> '.' !in keys[i]
    requires forall i :: 0 <= i < j ==> DatasetKey(keys[i])
    requires !DatasetKey(keys[j])
    ensures ResetKeys(props, dataset, keys) ==
      Progress(props, Filled(props, dataset, keys[..j]), Some(DatasetSet(dataset, keys[j], "").error))
  {
    PlainKeysReset(props, dataset, keys[..j]);
    ResetKeysStep(props, dataset, keys, j);
    PrefixThrownStays(props, dataset, keys, j + 1);
  }

  /** The filled dataset holds the old entries' keys and the copied keys. */
  lemma {:induction false} FilledKeys(props: Value, dataset: map<string, string>, keys: seq<string>)
    ensures Filled(props, dataset, keys).Keys == dataset.Keys + set k | k in keys
  {
    if keys != [] {
      var init := keys[..|keys| - 1];
      FilledKeys(props, dataset, init);
      assert keys == init + [keys[|keys| - 1]];
      assert (set k | k in keys) == (set k | k in init) + {keys[|keys| - 1]};
    }
  }

  /** Every key lands in the dataset with its prop's value, and the other entries stay. */
  lemma {:induction false} FilledValues(props: Value, dataset: map<string, string>, keys: seq<string>)
    ensures forall k :: k in keys ==> k in Filled(props, dataset, keys) && Filled(props, dataset, keys)[k] == Stringify(GetProp(props, k))
    ensures forall k :: k in dataset && k !in keys ==> k in Filled(props, dataset, keys) && Filled(props, dataset, keys)[k] == dataset[k]
  {
    if keys != [] {
      var init := keys[..|keys| - 1];
      FilledValues(props, dataset, init);
      assert keys == init + [keys[|keys| - 1]];
    }
  }

  /** With only plain keys the setter accepts nothing throws, `props` stays as it is
      and every key lands in the dataset with its prop's value. */
  lemma PlainKeysFillDataset(props: Value, dataset: map<string, string>, keys: seq<string>)
    requires forall i :: 0 <= i < |keys| ==> '.' !in keys[i] && DatasetKey(keys[i])
    ensures ResetKeys(props, dataset, keys).thrown.None?
    ensures ResetKeys(props, dataset, keys).props == props
    ensures ResetKeys(props, dataset, keys).dataset.Keys == dataset.Keys + set k | k in keys
    ensures forall k :: k in keys ==> ResetKeys(props, dataset, keys).dataset[k] == Stringify(GetProp(props, k))
    ensures forall k :: k in dataset && k !in keys ==> ResetKeys(props, dataset, keys).dataset[k] == dataset[k]
  {
    PlainKeysReset(props, dataset, keys);
    FilledKeys(props, dataset, keys);
    FilledValues(props, dataset, keys);
  }

  /** The keys a call resets: the key list, filtered. */
  function Plan(keys: Value, props: Value, order: seq<string>): (r: Result<seq<string>>)
    ensures r.Err? ==> r.error == TypeError
    ensures KeyList(keys, props, order).Err? ==> r.Err?
    ensures r.Ok? ==> Subsequence(r.value, KeyList(keys, props, order).value)
  {
    match KeyList(keys, props, order)
    case Err(e) => Err(e)
    case Ok(list) => SelectKeys(props, list)
  }

  /** How a call ends: a warning for missing props or an empty selection, a reset, or
      an exception. */
  datatype ResetOutcome = NoProps | NoValidKeys | Reset | Threw(error: Error)

  /** The part of a module instance resetState works on. */
  class ModuleInstance {
    const name: string
    /** The initial props the module was created with. */
    var props: Value
    /** The element's `dataset`. */
    var dataset: map<string, string>

    constructor (name: string, props: Value, dataset: map<string, string>)
      ensures this.name == name && this.props == props && this.dataset == dataset
    {
      this.name := name;
      this.props := props;
      this.dataset := dataset;
    }
  }

  /** resetState(m, keys). `order` is the insertion order of the props' own keys, which
      `Object.keys` reports. */
  method ResetModuleState(m: ModuleInstance, keys: Value, order: seq<string>) returns (o: ResetOutcome)
    requires m.props.Obj? ==> KeyOrder(order, m.props.fields)
    modifies m
    ensures o == NoProps <==> !Truthy(old(m.props))
    ensures o == NoValidKeys <==> Truthy(old(m.props)) && Plan(keys, old(m.props), order) == Ok([])
    ensures o == NoProps || o == NoValidKeys ==> m.props == old(m.props) && m.dataset == old(m.dataset)
    ensures Truthy(old(m.props)) && Plan(keys, old(m.props), order).Err? ==>
      o == Threw(TypeError) && m.props == old(m.props) && m.dataset == old(m.dataset)
    ensures Truthy(old(m.props)) && Plan(keys, old(m.props), order).Ok? ==>
      var p := ResetKeys(old(m.props), old(m.dataset), Plan(keys, old(m.props), order).value);
      m.props == p.props && m.dataset == p.dataset
      && (o.Threw? <==> p.thrown.Some?) && (p.thrown.Some? ==> o.error == p.thrown.value)
  {
    if !Truthy(m.props) {
      return NoProps;
    }
    var selection := Plan(keys, m.props, order);
    if selection.Err? {
      return Threw(selection.error);
    }
    var toReset := selection.value;
    if |toReset| == 0 {
      assert toReset == [];
      return NoValidKeys;
    }
    o := ResetSelected(m, toReset);
  }

  /** The key loop of resetState: the selected keys reset in order, stopping at the first
      that throws. */
  method ResetSelected(m: ModuleInstance, toReset: seq<string>) returns (o: ResetOutcome)
    modifies m
    ensures o == Reset || o.Threw?
    ensures var p := ResetKeys(old(m.props), old(m.dataset), toReset);
      m.props == p.props && m.dataset == p.dataset
      && (o.Threw? <==> p.thrown.Some?) && (p.thrown.Some? ==> o.error == p.thrown.value)
  {
    ghost var props0, dataset0 := m.props, m.dataset;
    var i := 0;
    while i < |toReset|
      invariant 0 <= i <= |toReset|
      invariant ResetKeys(props0, dataset0, toReset[..i]) == Progress(m.props, m.dataset, None)
    {
      ResetKeysStep(props0, dataset0, toReset, i);
      var step := ResetKey(m.props, m.dataset, toReset[i]);
      if step.Err? {
        PrefixThrownStays(props0, dataset0, toReset, i + 1);
        assert toReset[..|toReset|] == toReset;
        return Threw(step.error);
      }
      m.props, m.dataset := step.value.0, step.value.1;
      i := i + 1;
    }
    assert toReset[..|toReset|] == toReset;
    o := Reset;
  }

  /** Resetting one more key, after a prefix that did not throw, runs that key on the
      prefix's result. */
  lemma ResetKeysStep(props: Value, dataset: map<string, string>, keys: seq<string>, i: nat)
    requires i < |keys| && ResetKeys(props, dataset, keys[..i]).thrown.None?
    ensures var b := ResetKeys(props, dataset, keys[..i]);
      ResetKeys(props, dataset, keys[..i + 1]) ==
        match ResetKey(b.props, b.dataset, keys[i])
        case Err(e) => Progress(b.props, b.dataset, Some(e))
        case Ok((p, d)) => Progress(p, d, None)
  {
    assert keys[..i + 1][..i] == keys[..i];
  }

  /** Once a key has thrown, the later keys change nothing. */
  lemma {:induction false} PrefixThrownStays(props: Value, dataset: map<string, string>, keys: seq<string>, n: nat)
    requires n <= |keys|
    requires ResetKeys(props, dataset, keys[..n]).thrown.Some?
    ensures ResetKeys(props, dataset, keys) == ResetKeys(props, dataset, keys[..n])
    decreases |keys| - n
  {
    if n < |keys| {
      assert keys[..n + 1][..n] == keys[..n];
      PrefixThrownStays(props, dataset, keys, n + 1);
    } else {
      assert keys[..n] == keys;
    }
  }
}
