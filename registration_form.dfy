/** The registration form component: its input sanitizers and validators, and the
    handlers that add items to and remove items from a list held in the state. */
module RegistrationForm {
  import opened Wrappers
  import opened JsStrings
  import opened JsValues
  import opened ReactiveStore

  // ---------------------------------------------------------------------------
  // Email
  // ---------------------------------------------------------------------------

  /** sanitizeEmail: trimmed, then lowercased (ASCII case mapping). */
  function SanitizeEmail(value: string): (r: string)
    ensures |r| <= |value|
    ensures forall i :: 0 <= i < |r| ==> !IsAsciiUpper(r[i])
    ensures r == [] || (!IsWhitespace(r[0]) && !IsWhitespace(r[|r| - 1]))
  {
    var t := Trim(value);
    if t == [] then []
    else
      TrimShape(value);
      LowerKeepsWhitespace(t[0]);
      LowerKeepsWhitespace(t[|t| - 1]);
      ToLower(t)
  }

  /** The case mapping neither makes nor removes whitespace. */
  lemma LowerKeepsWhitespace(c: char)
    ensures IsWhitespace(ToLowerChar(c)) == IsWhitespace(c)
  {
    if IsAsciiUpper(c) {
      assert IsAsciiLower(ToLowerChar(c));
    }
  }

  /** A string that starts and ends with a non-whitespace character is its own trim. */
  lemma TrimTrimmed(s: string)
    requires s == [] || (!IsWhitespace(s[0]) && !IsWhitespace(s[|s| - 1]))
    ensures Trim(s) == s
  {
  }

  /** Sanitizing twice is sanitizing once. */
  lemma SanitizeEmailIdempotent(value: string)
    ensures SanitizeEmail(SanitizeEmail(value)) == SanitizeEmail(value)
  {
    var r := SanitizeEmail(value);
    TrimTrimmed(r);
    assert ToLower(r) == r;
  }

  /** The class `[a-zA-Z0-9._%+-]` of the local part. */
  predicate IsLocalChar(c: char) {
    IsAlnum(c) || c == '.' || c == '_' || c == '%' || c == '+' || c == '-'
  }

  /** The class `[a-zA-Z0-9.-]` of the domain. */
  predicate IsDomainChar(c: char) {
    IsAlnum(c) || c == '.' || c == '-'
  }

  predicate AllLocal(s: string) { forall i :: 0 <= i < |s| ==> IsLocalChar(s[i]) }
  predicate AllDomain(s: string) { forall i :: 0 <= i < |s| ==> IsDomainChar(s[i]) }
  predicate AllLetters(s: string) { forall i :: 0 <= i < |s| ==> IsAsciiLetter(s[i]) }

  /** `s` matches `^[a-zA-Z0-9._%+-]+@[a-zA-Z0-9.-]+\.[a-zA-Z]{2,}$` with its `@` at `a`
      and the dot before the top-level part at `d`. */
  predicate EmailAt(s: string, a: int, d: int) {
    0 < a && a + 1 < d && d + 3 <= |s| && s[a] == '@' && s[d] == '.'
    && AllLocal(s[..a]) && AllDomain(s[a + 1..d]) && AllLetters(s[d + 1..])
  }

  /** The regular expression, read as a choice of where its `@` and its last `.` go. */
  ghost predicate EmailShape(s: string) {
    exists a, d :: EmailAt(s, a, d)
  }

  /** The last index of `c` in `s`, or -1. */
  function LastIndexOf(s: string, c: char): (r: int)
    ensures -1 <= r < |s|
    ensures r >= 0 ==> s[r] == c
    ensures forall j :: r < j < |s| ==> s[j] != c
  {
    if s == [] then -1
    else if s[|s| - 1] == c then |s| - 1
    else LastIndexOf(s[..|s| - 1], c)
  }

  /** The test of the email pattern, done by one scan for the `@` (no class of the
      pattern holds one) and one for the last `.` (the top-level part holds none). */
  predicate MatchesEmail(s: string) {
    var a := IndexOf(s, '@');
    a < |s| && a >= 1 && AllLocal(s[..a])
    && var rest := s[a + 1..];
    var d := LastIndexOf(rest, '.');
    d >= 1 && AllDomain(rest[..d]) && |rest| - d - 1 >= 2 && AllLetters(rest[d + 1..])
  }

  /** The scan accepts exactly the strings the pattern matches. */
  lemma EmailMatchIff(s: string)
    ensures MatchesEmail(s) <==> EmailShape(s)
  {
    if MatchesEmail(s) {
      var a := IndexOf(s, '@');
      var rest := s[a + 1..];
      var d := LastIndexOf(rest, '.');
      assert rest[..d] == s[a + 1..a + 1 + d];
      assert rest[d + 1..] == s[a + 1 + d + 1..];
      assert EmailAt(s, a, a + 1 + d);
    }
    if EmailShape(s) {
      var a, d :| EmailAt(s, a, d);
      EmailAtScans(s, a, d);
    }
  }

  lemma EmailAtScans(s: string, a: int, d: int)
    requires EmailAt(s, a, d)
    ensures MatchesEmail(s)
  {
    AtIsFirst(s, a);
    var rest := s[a + 1..];
    var d' := d - a - 1;
    assert rest[d' + 1..] == s[d + 1..];
    DotIsLast(rest, d');
    assert rest[..d'] == s[a + 1..d];
  }

  /** An `@` after local characters only is the first `@`. */
  lemma AtIsFirst(s: string, a: int)
    requires 0 <= a < |s| && s[a] == '@' && AllLocal(s[..a])
    ensures IndexOf(s, '@') == a
  {
    assert !IsLocalChar('@');
    assert forall j :: 0 <= j < a ==> s[..a][j] == s[j];
  }

  /** A `.` followed by letters only is the last `.`. */
  lemma DotIsLast(s: string, d: int)
    requires 0 <= d < |s| && s[d] == '.' && AllLetters(s[d + 1..])
    ensures LastIndexOf(s, '.') == d
  {
    assert forall j :: d < j < |s| ==> s[d + 1..][j - d - 1] == s[j];
  }

  /** A matching string has its `@` at `a` and nowhere else. */
  lemma EmailAtOneAt(s: string, a: int, d: int)
    requires EmailAt(s, a, d)
    ensures forall j :: 0 <= j < |s| && j != a ==> s[j] != '@'
  {
    assert !IsLocalChar('@') && !IsDomainChar('@') && !IsAsciiLetter('@');
    forall j | 0 <= j < |s| && j != a
      ensures s[j] != '@'
    {
      if j < a {
        assert s[..a][j] == s[j];
      } else if j < d {
        assert s[a + 1..d][j - a - 1] == s[j];
      } else if j > d {
        assert s[d + 1..][j - d - 1] == s[j];
      }
    }
  }

  /** The error text validateEmail stores under `email_error`. */
  const InvalidEmailText: string := "Invalid email format!"

  /** A validator's outcome: the value it returns (None for `null`) and the text it
      stores under its error key through setState. */
  datatype Validation = Validation(accepted: Option<string>, errorKey: string, errorText: string)

  /** validateEmail: the sanitized value when it fits the pattern (clearing the error),
      else null and the error text. */
  function ValidateEmail(value: string): (v: Validation)
    ensures v.errorKey == "email_error"
    ensures v.accepted.Some? <==> EmailShape(SanitizeEmail(value))
    ensures v.accepted.Some? ==> v.accepted.value == SanitizeEmail(value) && v.errorText == ""
    ensures v.accepted.None? ==> v.errorText == InvalidEmailText
  {
    var s := SanitizeEmail(value);
    EmailMatchIff(s);
    if MatchesEmail(s) then Validation(Some(s), "email_error", "")
    else Validation(None, "email_error", InvalidEmailText)
  }

  /** An accepted email has exactly one `@`, no capital letter and no surrounding
      whitespace, and validating it again accepts it unchanged. */
  lemma AcceptedEmail(value: string)
    requires ValidateEmail(value).accepted.Some?
    ensures var e := ValidateEmail(value).accepted.value;
      (exists a :: 0 < a < |e| && e[a] == '@' && forall j :: 0 <= j < |e| && j != a ==> e[j] != '@')
      && (forall j :: 0 <= j < |e| ==> !IsAsciiUpper(e[j]))
      && ValidateEmail(e) == ValidateEmail(value)
  {
    var e := SanitizeEmail(value);
    assert EmailShape(e);
    var a, d :| EmailAt(e, a, d);
    EmailAtOneAt(e, a, d);
    assert 0 < a < |e| && e[a] == '@';
    SanitizeEmailIdempotent(value);
    assert ValidateEmail(e).accepted == Some(e);
  }

  // ---------------------------------------------------------------------------
  // Username
  // ---------------------------------------------------------------------------

  /** The class `[a-zA-Z0-9_]`. */
  predicate IsWordChar(c: char) { IsAlnum(c) || c == '_' }

  /** `replace(/[^a-zA-Z0-9_]/g, '')`: the word characters of `s`, in order. */
  function KeepWordChars(s: string): (r: string)
    ensures |r| <= |s|
    ensures forall i :: 0 <= i < |r| ==> IsWordChar(r[i])
    ensures forall i :: 0 <= i < |s| && IsWordChar(s[i]) ==> s[i] in r
    ensures forall c :: c in r ==> c in s
    ensures (forall i :: 0 <= i < |s| ==> IsWordChar(s[i])) ==> r == s
  {
    if s == [] then []
    else
      var rest := KeepWordChars(s[1..]);
      assert forall i :: 1 <= i < |s| ==> s[i] == s[1..][i - 1];
      if IsWordChar(s[0]) then [s[0]] + rest else rest
  }

  /** sanitizeUsername: trimmed, then stripped of every character outside `[a-zA-Z0-9_]`. */
  function SanitizeUsername(value: string): (r: string)
    ensures forall i :: 0 <= i < |r| ==> IsWordChar(r[i]) && r[i] as int <= 0x7F
  {
    KeepWordChars(Trim(value))
  }

  lemma {:induction false} KeepWordCharsAppend(a: string, b: string)
    ensures KeepWordChars(a + b) == KeepWordChars(a) + KeepWordChars(b)
  {
    if a != [] {
      assert (a + b)[1..] == a[1..] + b;
      KeepWordCharsAppend(a[1..], b);
    } else {
      assert a + b == b;
    }
  }

  lemma {:induction false} KeepTrimStart(s: string)
    ensures KeepWordChars(TrimStart(s)) == KeepWordChars(s)
  {
    if s != [] && IsWhitespace(s[0]) {
      KeepTrimStart(s[1..]);
    }
  }

  lemma {:induction false} KeepTrimEnd(s: string)
    ensures KeepWordChars(TrimEnd(s)) == KeepWordChars(s)
  {
    if s != [] && IsWhitespace(s[|s| - 1]) {
      SpaceIsNotWord(s[|s| - 1]);
      KeepDropLast(s);
      KeepTrimEnd(s[..|s| - 1]);
    }
  }

  lemma SpaceIsNotWord(c: char)
    requires IsWhitespace(c)
    ensures !IsWordChar(c)
  {
  }

  /** A non-word last character is dropped. */
  lemma {:induction false} KeepDropLast(s: string)
    requires s != [] && !IsWordChar(s[|s| - 1])
    ensures KeepWordChars(s) == KeepWordChars(s[..|s| - 1])
  {
    if |s| > 1 {
      KeepDropLast(s[1..]);
      assert s[1..][..|s| - 2] == s[..|s| - 1][1..];
    }
  }

  /** The trim is redundant: whitespace is never a word character, so sanitizing is
      deleting the non-word characters of the whole input. */
  lemma SanitizeUsernameIgnoresTrim(value: string)
    ensures SanitizeUsername(value) == KeepWordChars(value)
  {
    KeepTrimStart(value);
    KeepTrimEnd(TrimStart(value));
  }

  /** Sanitizing twice is sanitizing once. */
  lemma SanitizeUsernameIdempotent(value: string)
    ensures SanitizeUsername(SanitizeUsername(value)) == SanitizeUsername(value)
  {
    SanitizeUsernameIgnoresTrim(SanitizeUsername(value));
  }

  const ShortUsernameText: string := "Username is too short! Minimum length is 5 characters."

  /** validateUsername: the sanitized value when it is at least 5 long, else null and
      the error text. */
  function ValidateUsername(value: string): (v: Validation)
    ensures v.errorKey == "username_error"
    ensures v.accepted.Some? <==> |SanitizeUsername(value)| >= 5
    ensures v.accepted.Some? ==> v.accepted.value == SanitizeUsername(value) && v.errorText == ""
    ensures v.accepted.None? ==> v.errorText == ShortUsernameText
  {
    var s := SanitizeUsername(value);
    Utf16LengthBmp(s);
    if Utf16Length(s) < 5 then Validation(None, "username_error", ShortUsernameText)
    else Validation(Some(s), "username_error", "")
  }

  // ---------------------------------------------------------------------------
  // Password
  // ---------------------------------------------------------------------------

  /** The class `[@$!%*?&]` of special characters. */
  predicate IsSpecial(c: char) {
    c == '@' || c == '$' || c == '!' || c == '%' || c == '*' || c == '?' || c == '&'
  }

  /** The class `[A-Za-z\d@$!%*?&]`. */
  predicate IsPasswordChar(c: char) { IsAlnum(c) || IsSpecial(c) }

  /** `^(?=.*[a-z])(?=.*[A-Z])(?=.*\d)(?=.*[@$!%*?&])[A-Za-z\d@$!%*?&]{8,}$`: at least 8
      characters, all from the class, with a lowercase letter, an uppercase letter, a
      digit and a special among them. */
  predicate MatchesPassword(s: string) {
    |s| >= 8
    && (forall i :: 0 <= i < |s| ==> IsPasswordChar(s[i]))
    && (exists i :: 0 <= i < |s| && IsAsciiLower(s[i]))
    && (exists i :: 0 <= i < |s| && IsAsciiUpper(s[i]))
    && (exists i :: 0 <= i < |s| && IsAsciiDigit(s[i]))
    && (exists i :: 0 <= i < |s| && IsSpecial(s[i]))
  }

  const ShortPasswordText: string := "Password is too short! Minimum length is 8 characters."
  const WeakPasswordText: string := "Password must contain uppercase, lowercase, a number, and a special character."

  /** validatePassword: the value itself, unsanitized, when it passes both checks; the
      length check counts UTF-16 code units and comes first. */
  function ValidatePassword(value: string): (v: Validation)
    ensures v.errorKey == "password_error"
    ensures v.accepted.Some? <==> MatchesPassword(value)
    ensures v.accepted.Some? ==> v.accepted.value == value && v.errorText == ""
    ensures Utf16Length(value) < 8 ==> v.errorText == ShortPasswordText
    ensures Utf16Length(value) >= 8 && !MatchesPassword(value) ==> v.errorText == WeakPasswordText
  {
    if Utf16Length(value) < 8 then
      assert !MatchesPassword(value) by {
        if MatchesPassword(value) {
          Utf16LengthBmp(value);
        }
      }
      Validation(None, "password_error", ShortPasswordText)
    else if !MatchesPassword(value) then Validation(None, "password_error", WeakPasswordText)
    else Validation(Some(value), "password_error", "")
  }

  /** A value with a character outside the class fails, however long it is; such a
      value with 8 or more code units gets the complexity message. */
  lemma ForeignCharacterRefused(value: string, i: int)
    requires 0 <= i < |value| && !IsPasswordChar(value[i])
    ensures ValidatePassword(value).accepted.None?
    ensures Utf16Length(value) >= 8 ==> ValidatePassword(value).errorText == WeakPasswordText
  {
  }

  // ---------------------------------------------------------------------------
  // Lists
  // ---------------------------------------------------------------------------

  /** The calls a list handler makes after changing the context: setState with a key and
      a value (the key as the handler holds it, checked by setState), and the control's
      detachAllEvents for the element. */
  datatype Call =
    | SetStateCall(key: Value, value: Value)
    | DetachAllEvents(element: nat)
    | Notified(notification: Notification) // a listener call made by the store's set trap

  /** The listener calls as handler calls, in order. */
  function Relayed(ns: seq<Notification>): (cs: seq<Call>)
    ensures |cs| == |ns| && forall i :: 0 <= i < |ns| ==> cs[i] == Notified(ns[i])
  {
    seq(|ns|, i requires 0 <= i < |ns| => Notified(ns[i]))
  }

  /** The handler's `context` argument, an object whose properties the handler changes. */
  class Context {
    var fields: map<string, Value>

    constructor (fields: map<string, Value>)
      ensures this.fields == fields
    {
      this.fields := fields;
    }
  }

  /** The state key under which addProduct and removeProduct store the count. */
  const ProductCount: string := "product_count"
  /** The state key under which addUser and removeUser store the count. */
  const UserCount: string := "user_count"

  /** The id of a new item: `${name}-${Date.now()}`, the clock reading passed in. */
  function ItemId(moduleName: string, now: nat): (id: string)
    ensures |id| > |moduleName| + 1 && id[..|moduleName|] == moduleName && id[|moduleName|] == '-'
  {
    moduleName + "-" + NatToString(now)
  }

  /** `{id, name: `Item ${id}`, isVisible: true}`. */
  function NewItem(id: string): (item: Value)
    ensures item.Obj? && item.fields.Keys == {"id", "name", "isVisible"}
    ensures item.fields["id"] == Str(id) && item.fields["isVisible"] == Bool(true)
  {
    Obj(map["id" := Str(id), "name" := Str("Item " + id), "isVisible" := Bool(true)])
  }

  /** The property key `context[context.actionDetails]` reads: the details value turned
      into a property key. */
  function DetailsKey(fields: map<string, Value>): string {
    Stringify(GetProp(Obj(fields), "actionDetails"))
  }

  /** The list in the context is the store's own array: the context spreads
      `getState()`, whose reads hand out the store's arrays behind the reactive proxy. */
  predicate FromStore(store: map<string, Value>, key: string, list: Value) {
    key in store && store[key] == list
  }

  /** addProduct / addUser: push a new item onto the list the details name, then hand
      the list and its new length to setState. A list that is the store's array is
      pushed through the set trap: the item is written into the store's array, and the
      listeners of the new index and then those of `length` are called with the array.
      A list the store does not hold is a plain array and notifies nobody. Anything but
      an array has no `push` and throws, and so does a push past the largest array
      length (the length write throws a RangeError); then nothing changes. */
  method AddItem(context: Context, state: ModuleState, moduleName: string, now: nat, countKey: string)
    returns (r: Result<seq<Call>>)
    modifies context, state
    ensures state.listeners == old(state.listeners)
    ensures var key := DetailsKey(old(context.fields));
      var list := GetProp(Obj(old(context.fields)), key);
      (r.Err? <==> !list.Arr? || |list.elems| + 1 >= LengthBound)
      && (r.Err? ==> context.fields == old(context.fields) && state.store == old(state.store))
      && (r.Err? ==> r.error == if list.Arr? then RangeError else TypeError)
      && (r.Ok? ==>
        var items := list.elems + [NewItem(ItemId(moduleName, now))];
        var shared := FromStore(old(state.store), key, list);
        context.fields == old(context.fields)[key := Arr(items)]
        && state.store == (if shared then old(state.store)[key := Arr(items)] else old(state.store))
        && r.value ==
          (if shared
           then Relayed(state.Notifications(NatToString(|list.elems|), Arr(items))
                        + state.Notifications("length", Arr(items)))
           else [])
          + [SetStateCall(GetProp(Obj(context.fields), "actionDetails"), Arr(items)),
             SetStateCall(Str(countKey), Num(|list.elems| + 1))])
  {
    var key := DetailsKey(context.fields);
    var list := GetProp(Obj(context.fields), key);
    if !list.Arr? {
      return Err(TypeError);
    }
    var n := |list.elems|;
    if n + 1 >= LengthBound {
      return Err(RangeError);
    }
    var item := NewItem(ItemId(moduleName, now));
    var items := list.elems + [item];
    var pushed: seq<Call> := [];
    if FromStore(state.store, key, list) {
      PushSteps(list.elems, item);
      assert state.Get(key) == list;
      var atIndex := state.SetNested(key, NatToString(n), item);
      assert atIndex.Ok?;
      assert state.Get(key) == Arr(items);
      var atLength := state.SetNested(key, "length", Num(n + 1));
      assert atLength.Ok?;
      pushed := Relayed(atIndex.value + atLength.value);
    }
    context.fields := context.fields[key := Arr(items)];
    r := Ok(pushed + [SetStateCall(GetProp(Obj(context.fields), "actionDetails"), context.fields[key]),
                      SetStateCall(Str(countKey), Num(|items|))]);
  }

  /** `push` is an index write at the old length followed by a `length` write of the
      new length, and both pass the grown array on. */
  lemma PushSteps(elems: seq<Value>, item: Value)
    requires |elems| + 1 < LengthBound
    ensures ArraySet(elems, NatToString(|elems|), item) == Ok((elems + [item], Arr(elems + [item])))
    ensures ArraySet(elems + [item], "length", Num(|elems| + 1)) == Ok((elems + [item], Arr(elems + [item])))
  {
    ArraySetAppend(elems, item);
  }

  /** The `filter(item => item.id !== itemId)` of the remove handlers: the items whose
      id differs, in order; an item that is null or undefined has no `id` and throws. */
  function KeepOthers(items: seq<Value>, itemId: Value): (r: Result<seq<Value>>)
    ensures r.Err? <==> exists i :: 0 <= i < |items| && IsNullish(items[i])
    ensures r.Err? ==> r.error == TypeError
    ensures r.Ok? ==> |r.value| <= |items|
  {
    if items == [] then Ok([])
    else if IsNullish(items[0]) then Err(TypeError)
    else
      match KeepOthers(items[1..], itemId)
      case Err(e) =>
        assert exists i :: 0 <= i < |items| && IsNullish(items[i]) by {
          var i :| 0 <= i < |items[1..]| && IsNullish(items[1..][i]);
          assert items[i + 1] == items[1..][i];
        }
        Err(e)
      case Ok(rest) =>
        assert forall i :: 1 <= i < |items| ==> items[i] == items[1..][i - 1];
        assert forall x :: x in items <==> x == items[0] || x in items[1..];
        if GetProp(items[0], "id") != itemId then Ok([items[0]] + rest) else Ok(rest)
  }

  /** removeProduct / removeUser: `context.item.id || context.id` names the item; the
      list under the details keeps exactly the other items and goes to setState with
      its new length; then every event bound on the element is detached. */
  method RemoveItem(context: Context, element: nat, countKey: string) returns (r: Result<seq<Call>>)
    modifies context
    ensures var item := GetProp(Obj(old(context.fields)), "item");
      var key := DetailsKey(old(context.fields));
      var list := GetProp(Obj(old(context.fields)), key);
      (IsNullish(item) || !list.Arr? ==> r == Err(TypeError) && context.fields == old(context.fields))
      && (!IsNullish(item) && list.Arr? ==>
        var itemId := if Truthy(GetProp(item, "id")) then GetProp(item, "id") else GetProp(Obj(old(context.fields)), "id");
        match KeepOthers(list.elems, itemId)
        case Err(e) => r == Err(e) && context.fields == old(context.fields)
        case Ok(kept) =>
          context.fields == old(context.fields)[key := Arr(kept)]
          && r.Ok? && |r.value| == 3
          && r.value[0] == SetStateCall(GetProp(Obj(context.fields), "actionDetails"), Arr(kept))
          && r.value[1] == SetStateCall(Str(countKey), Num(|kept|))
          && r.value[2] == DetachAllEvents(element))
  {
    var item := GetProp(Obj(context.fields), "item");
    if IsNullish(item) {
      return Err(TypeError);
    }
    var own := GetProp(item, "id");
    var itemId := if Truthy(own) then own else GetProp(Obj(context.fields), "id");
    var key := DetailsKey(context.fields);
    var list := GetProp(Obj(context.fields), key);
    if !list.Arr? {
      return Err(TypeError);
    }
    var kept := KeepOthers(list.elems, itemId);
    if kept.Err? {
      return Err(kept.error);
    }
    context.fields := context.fields[key := Arr(kept.value)];
    r := Ok([SetStateCall(GetProp(Obj(context.fields), "actionDetails"), context.fields[key]),
             SetStateCall(Str(countKey), Num(|kept.value|)),
             DetachAllEvents(element)]);
  }

  /** Removing an id that no item has keeps the list as it is. */
  lemma {:induction false} KeepOthersAbsent(items: seq<Value>, itemId: Value)
    requires forall i :: 0 <= i < |items| ==> !IsNullish(items[i]) && GetProp(items[i], "id") != itemId
    ensures KeepOthers(items, itemId) == Ok(items)
  {
    if items != [] {
      KeepOthersAbsent(items[1..], itemId);
      assert [items[0]] + items[1..] == items;
    }
  }

  /** One step of the filter: the first item is kept when its id differs. */
  lemma KeepOthersStep(items: seq<Value>, itemId: Value)
    requires items != [] && !IsNullish(items[0])
    requires KeepOthers(items[1..], itemId).Ok?
    ensures KeepOthers(items, itemId)
      == Ok((if GetProp(items[0], "id") != itemId then [items[0]] else []) + KeepOthers(items[1..], itemId).value)
  {
    var rest := KeepOthers(items[1..], itemId).value;
    assert [] + rest == rest;
  }

  /** The filter keeps exactly the items whose id differs. */
  lemma {:induction false} KeepOthersMembers(items: seq<Value>, itemId: Value)
    requires KeepOthers(items, itemId).Ok?
    ensures forall x :: x in KeepOthers(items, itemId).value <==> x in items && GetProp(x, "id") != itemId
  {
    if items != [] {
      KeepOthersMembers(items[1..], itemId);
      KeepOthersStep(items, itemId);
      assert items == [items[0]] + items[1..];
    }
  }

  /** With distinct ids, removing the id of an item drops that one item. */
  lemma {:induction false} KeepOthersUnique(items: seq<Value>, i: int)
    requires 0 <= i < |items|
    requires forall j :: 0 <= j < |items| ==> !IsNullish(items[j])
    requires forall j :: 0 <= j < |items| && j != i ==> GetProp(items[j], "id") != GetProp(items[i], "id")
    ensures KeepOthers(items, GetProp(items[i], "id")) == Ok(items[..i] + items[i + 1..])
  {
    var id := GetProp(items[i], "id");
    var rest := items[1..];
    if i == 0 {
      KeepOthersAbsent(rest, id);
      KeepOthersStep(items, id);
      assert items[..0] + items[1..] == rest;
    } else {
      assert rest[i - 1] == items[i];
      forall j | 0 <= j < |rest|
        ensures !IsNullish(rest[j]) && (j != i - 1 ==> GetProp(rest[j], "id") != id)
      {
        assert rest[j] == items[j + 1];
      }
      KeepOthersUnique(rest, i - 1);
      KeepOthersStep(items, id);
      assert items[..i] + items[i + 1..] == [items[0]] + (rest[..i - 1] + rest[i..]);
    }
  }

  /** An item just added by AddItem is removed again by its own id, when the ids of the
      list are distinct: the list is back where it was. */
  lemma AddThenRemove(items: seq<Value>, moduleName: string, now: nat)
    requires forall j :: 0 <= j < |items| ==> !IsNullish(items[j])
    requires forall j :: 0 <= j < |items| ==> GetProp(items[j], "id") != Str(ItemId(moduleName, now))
    ensures KeepOthers(items + [NewItem(ItemId(moduleName, now))], Str(ItemId(moduleName, now))) == Ok(items)
  {
    var all := items + [NewItem(ItemId(moduleName, now))];
    KeepOthersUnique(all, |items|);
    assert all[..|items|] + all[|items| + 1..] == items;
  }
}
