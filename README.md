# neuer in Dafny: the reactive binding engine

neuer builds web components. A module is a custom element with five parts:
- a reactive **store**, `ModuleState`: a key/value map whose writes notify per-key listeners at once;
- a **view**, `ModuleView`: the render callbacks of each state key;
- a **control**, `ModuleControl`: one event binding per element and event name, plus a bus of named events;
- a **directive compiler**, `ModuleDirectiveParser`. It reads the `s-`, `l-`, `v-`, `c-` and `f-` attributes of the module's tree and turns them into state bindings, list renders, view renderers, event listeners and conditional display.
- the process-wide **manager**, `ModuleManager`, which registers modules, global renderers and global handlers.

Alongside the engine the model covers two smaller pieces. `resetState` copies selected properties back into the element's dataset. The registration form component sanitizes and validates its fields and keeps lists of products and users.

The Dafny modules follow that structure:
- `Wrappers`: Option, Result and the error kinds the engine throws.
- `JsStrings`, `JsValues`: the JavaScript built-ins the engine relies on:
  - `trim`, `split`, `indexOf`, `toLowerCase`, UTF-16 length;
  - decimal index names;
  - truthiness;
  - property reads.
- `DirectiveSyntax`: `parseDirective`, the colon override of control directives, and the state-chain tokenizer.
- `DomTree`: the element tree and everything the compiler computes on it:
  - directive collection;
  - `ensureDataKeys`;
  - attribute removal;
  - family order;
  - dotted-path conditions;
  - list clearing and cloning.
- `HandlerChains`: the interpreters of state handler chains and of the control operators.
- `ReactiveStore`, `View`, `Control`, `Lifecycle` (the `Module` base class) and `Manager`: classes whose methods update their fields in place, as the engine's objects do.
- `Compiler`: the `ModuleDirectiveParser` class. `Module.initializeFromDOM` is its constructor followed by `Parse`. Its methods drive the `Module`, `ModuleView` and `ModuleControl` objects, and they prove that every directive the parse handled stays wired.
- `ResetState`, `RegistrationForm`: the two helpers.

How the model stands in for the browser and the host:
- **The DOM** is an abstract tree. Elements have numeric ids, attribute lists, a display setting, children and (for templates) content. A fragment stands for the shadow root.
- **The module's own members** form a capability map from names to handler behaviours. A behaviour is a function from (value, context) to value, with a flag saying whether it is async.
- **Render callbacks and listeners** are records with identity. The compiler keeps, for every function it hands to the module, the closure record saying what that function does.
- **Proxy traps** are explicit methods, such as `ViewWrite`, `DeleteProperty` and `SetNested` on the store, and `InjectedGet`/`InjectedSet` for the injected accessors.
- **Listener calls and renderer calls** are returned or recorded as sequences, in the order the engine makes them.

The model follows the code where it differs from the doc comments:
- The doc comment of `parseDirective` promises that `show &| hidden` gives the operator `&|` and the details `hidden`. The code splits on single operator characters, so it gives `&` and empty details (`DirectiveSyntax.ParseDirectiveDocExample`).
- The last step of a state directive's listener writes to the read-only state view. As written, that listener therefore always ends in the read-only error (`HandlerChains.StateDirectiveEvent`).
- A top-level `f-` directive has no item context, so its element is always hidden (`DomTree.TopLevelConditionalHidden`).
- `Module.initializeFromDOM` parses the shadow root, which is a fragment. `ensureDataKeys` enters only elements, so it stamps nothing there (`DomTree.FragmentRootUnstamped`).
- Clearing a list's container removes only its elements, so its text nodes stay (`DomTree.KeepTemplate`).
- A list re-render that is not given an array reads the state under the suffixed name that the re-render callback passes (`Compiler.RerenderWithoutArrayIsEmpty`).
- A write into a nested array notifies under the index or `length` key, with the array as value, not under the owning top-level key (`ReactiveStore.ArraySet`).
- A dotted key in `resetState` copies `props['a.b']` into the parent object inside `props`, and does not touch the dataset (`ResetState.DottedResetLands`).
- `unregisterRender` on a known key calls `unlisten`, which the store does not define, so it throws after deleting the entry (`View.ModuleView.UnregisterRender`).
- After `cleanupEvents` the element table is a WeakMap, which has no `forEach`, so a second call throws (`Control.ModuleControl.CleanupEvents`).

## Model

| member | source | states |
|---|---|---|
| JsStrings.TrimStartShape | module/ModuleDirectiveParser.js:140 | trimming the start yields a suffix of the string that does not begin with whitespace |
| JsStrings.TrimStartDropsWhitespace | module/ModuleDirectiveParser.js:140 | everything trimming the start removes is whitespace |
| JsStrings.TrimEndShape | module/ModuleDirectiveParser.js:140 | trimming the end yields a prefix of the string that does not end with whitespace |
| JsStrings.TrimEndDropsWhitespace | module/ModuleDirectiveParser.js:140 | everything trimming the end removes is whitespace |
| JsStrings.TrimShape | module/ModuleDirectiveParser.js:140 | `trim` yields a slice of the string with whitespace at neither end |
| JsStrings.TrimNoWhitespace | module/ModuleDirectiveParser.js:140 | a string without whitespace is its own trim |
| JsStrings.IndexOf | module/ModuleDirectiveParser.js:375 | the first index of the character, or the length when it is absent |
| JsStrings.Split | module/ModuleDirectiveParser.js:376 | `split` yields at least one piece, the first being the text before the first separator, and a separator present yields at least two pieces |
| JsStrings.SplitPiecesFree | module/ModuleDirectiveParser.js:376 | no piece of a split contains the separator |
| JsStrings.JoinSplit | utils/module-resetState.js:44-46 | splitting and re-joining on the same separator gives back the string |
| JsStrings.SplitJoin | utils/module-resetState.js:44-46 | joining pieces free of the separator and splitting again gives back the pieces |
| JsStrings.IndexOfPrefix | module/ModuleDirectiveParser.js:375-376 | the first separator of `a + sep + b`, with none in `a`, sits right after `a` |
| JsStrings.DigitChar | module/ModuleState.js:87 | the decimal digit character of a number below ten |
| JsStrings.NatToString | module/ModuleState.js:87 | an index renders as decimal digits without a leading zero, except zero itself |
| JsStrings.NatToStringRoundTrip | module/ModuleState.js:87 | reading back the decimal rendering gives the number |
| JsStrings.NatToStringInjective | module/ModuleState.js:87 | distinct indices render differently |
| JsStrings.ToLowerChar | components/RegistrationForm.js:159 | the ASCII part of `toLowerCase`: each ASCII uppercase letter becomes its lowercase letter and every other character is left alone (see Left out) |
| JsStrings.ToLower | components/RegistrationForm.js:159 | each character is lowercased in place by the ASCII mapping, keeping the length |
| JsStrings.Utf16Length | components/RegistrationForm.js:212 | a string has at least as many UTF-16 code units as characters |
| JsStrings.Utf16LengthBmp | components/RegistrationForm.js:212 | for characters of the basic plane the two lengths agree |
| JsValues.InvalidIsFalsy | module/ModuleDirectiveParser.js:701-713 | every value the `&` and `#` tests call invalid is falsy; the converse fails for `false` and `0` |
| JsValues.CanonicalIndex | module/ModuleState.js:87 | a key that denotes an array index is that index's decimal rendering |
| JsValues.CanonicalFromDigits | module/ModuleState.js:87 | digits without a leading zero are the rendering of their value |
| JsValues.LeadingNonZeroPositive | module/ModuleState.js:87 | digits with a non-zero lead have a positive value |
| JsValues.NatToStringOfZeroDigits | module/ModuleState.js:87 | digits of value zero begin with a zero |
| JsValues.IndexRoundTrip | module/ModuleState.js:87 | the rendering of an index denotes that index |
| JsValues.GetProp | module/ModuleState.js:72-76 | a property read on an object yields its field or undefined; on null, undefined and other primitives without properties it yields undefined |
| JsValues.ReadProp | module/ModuleDirectiveParser.js:301 | reading a property throws a TypeError exactly on null and undefined; JsValues.ReadPropReadsBack states what the read then yields |
| JsValues.ReadPropReadsBack | module/ModuleDirectiveParser.js:301 | an array read at the decimal key of an index yields that element and its length the element count; a field just written to an object is read back and every other key reads as before |
| JsValues.Stringify | utils/module-resetState.js:49 | a string is stored in the dataset as it is |
| DirectiveSyntax.FirstOperator | module/ModuleDirectiveParser.js:137 | the position of the first operator character, every character before it being none |
| DirectiveSyntax.SplitKeepingOperators | module/ModuleDirectiveParser.js:137 | the split with a capturing group alternates text and single operators, has an odd number of parts, starts with the text before the first operator and has more than one part exactly when an operator occurs |
| DirectiveSyntax.ParseDirective | module/ModuleDirectiveParser.js:136-144 | firstAction is the trimmed text before the first operator; an operator is reported exactly when one occurs, and then actionDetails is the trimmed text up to the next operator |
| DirectiveSyntax.FirstOperatorAt | module/ModuleDirectiveParser.js:137 | a position with no operator before it and an operator at it is the first operator |
| DirectiveSyntax.ParseDirectiveDocExample | module/ModuleDirectiveParser.js:128-144 | the example in the doc comment splits, as the code is written, into `show`, the ampersand alone and empty details (the comment promises the two-character operator and `hidden`) |
| DirectiveSyntax.ExampleOperators | module/ModuleDirectiveParser.js:137 | in the doc-comment example the ampersand is at position five and a second operator follows at once |
| DirectiveSyntax.TrimShow | module/ModuleDirectiveParser.js:140 | trimming `show ` gives `show` |
| DirectiveSyntax.ControlReading | module/ModuleDirectiveParser.js:477-483 | when the trimmed head holds a colon, the handler is the text before it, the operator becomes the colon and the details the text up to the next colon, otherwise the plain parse; the handler name never holds a colon |
| DirectiveSyntax.CompileControl | module/ModuleDirectiveParser.js:477-488 | a control directive is refused with the minimum-one-handler error exactly when its handler name is empty, and otherwise reads as the colon-aware parse |
| DirectiveSyntax.AlnumEnd | module/ModuleDirectiveParser.js:674 | the end of the alphanumeric run starting at a position |
| DirectiveSyntax.AlnumEndRun | module/ModuleDirectiveParser.js:674 | every character of that run is alphanumeric |
| DirectiveSyntax.OpEnd | module/ModuleDirectiveParser.js:674 | the end of the run of chain operators starting at a position |
| DirectiveSyntax.OpEndRun | module/ModuleDirectiveParser.js:674 | every character of that run is a chain operator |
| DirectiveSyntax.TokenizeStateChain | module/ModuleDirectiveParser.js:674-684 | the global regex loop collects exactly the stages of the tokenizer |
| DirectiveSyntax.TokenizeFromWellFormed | module/ModuleDirectiveParser.js:674 | every stage found has a non-empty alphanumeric handler name and an operator made of chain operators |
| DirectiveSyntax.TokenizeWellFormed | module/ModuleDirectiveParser.js:674-684 | every stage of a state directive is well formed |
| DirectiveSyntax.BoundEventName | module/ModuleDirectiveParser.js:690 | the event bound to the state is the text before the first pipe character |
| DirectiveSyntax.AlnumEndAt | module/ModuleDirectiveParser.js:674 | a run of alphanumerics ended by a non-alphanumeric ends where the run scan says |
| DirectiveSyntax.EventNameIsFirstStage | module/ModuleDirectiveParser.js:674-690 | when the bound event name is a plain word, it is the first stage's handler, and a pipe makes that stage's operator start with the pipe |
| DirectiveSyntax.AlnumEndShift | module/ModuleDirectiveParser.js:674 | the run scan is unaffected by text before the position |
| DirectiveSyntax.OpEndShift | module/ModuleDirectiveParser.js:674 | the operator scan is unaffected by text before the position |
| DirectiveSyntax.TokenizeFromShift | module/ModuleDirectiveParser.js:674-684 | tokenizing from a position is unaffected by text before it |
| DirectiveSyntax.TokenizeHead | module/ModuleDirectiveParser.js:674-684 | a rendered well-formed stage followed by a space is matched as that stage, and the scan resumes after the space |
| DirectiveSyntax.TokenizeRender | module/ModuleDirectiveParser.js:674-684 | rendering well-formed stages as text and tokenizing gives back the stages |
| DirectiveSyntax.TokenizeCons | module/ModuleDirectiveParser.js:674-684 | a rendered stage in front of any text adds that one stage in front of the text's stages |
| DirectiveSyntax.OpEndFrom | module/ModuleDirectiveParser.js:674 | a run of chain operators ended by another character ends where the operator scan says |
| ReactiveStore.ModuleState.constructor | module/ModuleState.js:11-17 | a new store holds exactly the given fields and has no listeners |
| ReactiveStore.ModuleState.Create | module/ModuleState.js:11-17 | an omitted or undefined initial state takes the default empty object; otherwise it refuses exactly the initial states that are not non-null objects, with the initial-state error; an object's fields become the store |
| ReactiveStore.IndexEntries | module/ModuleState.js:16 | an array given as initial state contributes one entry per index, under the index's decimal name (an array root is otherwise not modelled, see Left out) |
| ReactiveStore.ModuleState.Get | module/ModuleState.js:72-76 | a read yields the stored value, or undefined for a key never written |
| ReactiveStore.ModuleState.Notifications | module/ModuleState.js:152-157 | notify calls every listener of the key once, in insertion order, with the value; a key without listeners calls nothing |
| ReactiveStore.ModuleState.Notify | module/ModuleState.js:152-157 | the loop over the key's listener set makes exactly the calls Notifications describes |
| ReactiveStore.ModuleState.SetState | module/ModuleState.js:25-27 | on an object root, setState stores the value and notifies the key's listeners; it throws a TypeError, changing nothing, exactly when the key contains "[object Object]"; the listener table never changes |
| ReactiveStore.ModuleState.SetNested | module/ModuleState.js:72-107 | a write through the proxy of a nested object updates that field and notifies with the value; through a nested array it follows the array rules and fails exactly when they refuse; through a nested promise it notifies with the value and leaves the store, failing only for a key containing "[object Object]"; on a nested function, which the get trap returns bare, nothing is notified and nothing changes; any other nested value throws a TypeError |
| ReactiveStore.ArraySet | module/ModuleState.js:86-107 | on an array, `length` and integer-like keys notify with the array itself, other keys with the value; only an array index below 2^32 - 1 or `length` changes the elements, and an array shorter than 2^32 stays so; it fails exactly for a length `ReactiveStore.ArrayLength` refuses (a RangeError) or a non-integer-like key containing "[object Object]" |
| ReactiveStore.ArrayLength | module/ModuleState.js:87-88 | an accepted length is below 2^32; a number is accepted exactly when it is a whole number in [0, 2^32); a string exactly when `Number` makes such a number of it; undefined, objects, functions and promises never |
| ReactiveStore.StringToInteger | module/ModuleState.js:87-88 | `Number` of a string that is empty or only whitespace is 0 (section 7.1.4.1 of ECMA-262) |
| ReactiveStore.StringToIntegerDigits | module/ModuleState.js:87-88 | a digit string with whitespace around it converts to its decimal value |
| ReactiveStore.ArrayLengthOfArray | module/ModuleState.js:87-88 | an array assigned as a length converts through its comma-joined string form |
| ReactiveStore.ArrayLengthHex | module/ModuleState.js:87-88 | `"0x10"` is accepted as length 16 |
| ReactiveStore.ArrayLengthSign | module/ModuleState.js:87-88 | `"+5"` is accepted as length 5 |
| ReactiveStore.ArrayLengthFraction | module/ModuleState.js:87-88 | `"3.0"` is accepted as length 3 |
| ReactiveStore.ArrayLengthExponent | module/ModuleState.js:87-88 | `"1e3"` is accepted as length 1000 |
| ReactiveStore.ArrayLengthNotWhole | module/ModuleState.js:87-88 | `"3.5"` is refused |
| ReactiveStore.ArrayLengthOthers | module/ModuleState.js:87-88 | `[]` is accepted as length 0 and `[3]` as 3, and 2^32 is refused |
| ReactiveStore.Resize | module/ModuleState.js:87-88 | assigning `length` keeps the first elements and reads the new slots as undefined |
| ReactiveStore.SetIndex | module/ModuleState.js:87-88 | an index write sets that element, extends the array when needed and keeps every other element |
| ReactiveStore.CanonicalParses | module/ModuleState.js:87 | every canonical index key passes the `parseInt` test |
| ReactiveStore.ArraySetIndex | module/ModuleState.js:86-90 | writing at index i below 2^32 - 1 by its decimal name sets element i and notifies with the updated array; a larger i is no index and leaves the elements alone |
| ReactiveStore.ArraySetLength | module/ModuleState.js:86-90 | a `length` write of an accepted number resizes the array and notifies with it |
| ReactiveStore.ArraySetAppend | module/ModuleState.js:86-90 | an index write at the current length appends the element, and the `length` write of the new length then keeps the grown array |
| ReactiveStore.ModuleState.ViewWrite | module/ModuleState.js:34-42 | any write through the read-only view throws |
| ReactiveStore.ModuleState.DeleteProperty | module/ModuleState.js:47-49 | any delete, through the view or through the reactive proxy, throws |
| ReactiveStore.ModuleState.Listen | module/ModuleState.js:128-143 | a non-function callback throws and changes nothing; otherwise the key's set gains the callback once, with set semantics, and the store stays |
| ReactiveStore.Added | module/ModuleState.js:142 | `Set.add`: the set afterwards holds the old members plus the callback, appended only when new, and stays free of duplicates |
| ReactiveStore.AddedIdempotent | module/ModuleState.js:142 | adding the same callback twice is adding it once |
| ReactiveStore.ModuleState.Destroy | module/ModuleState.js:54-57 | destroy drops every listener, so no later write notifies anyone; the stored values stay |
| DomTree.MatchPrefix | module/ModuleDirectiveParser.js:11-15 | an attribute name matches a directive prefix exactly when its first letter is one of c, v, s, f, l followed by a dash, and the matched prefix is that two-letter start |
| DomTree.DirectiveNameRebuilt | module/ModuleDirectiveParser.js:80-87 | the family letter, a dash and the directive's name rebuild the attribute name |
| DomTree.AttrDirectives | module/ModuleDirectiveParser.js:79-89 | an element contributes at most one directive per attribute, each naming that element and a known family |
| DomTree.CollectWellFormed | module/ModuleDirectiveParser.js:67-100 | every directive collected under a node belongs to a known family and names an element of that subtree |
| DomTree.CollectAllWellFormed | module/ModuleDirectiveParser.js:67-100 | the same for a sequence of children |
| DomTree.GetAttr | module/ModuleDirectiveParser.js:114 | an attribute reads as present exactly when some attribute carries that name |
| DomTree.SetAttr | module/ModuleDirectiveParser.js:115 | after setting, the attribute reads as the new value and every other attribute reads as before |
| DomTree.RemoveAttr | module/ModuleDirectiveParser.js:153-157 | removal keeps exactly the attributes of other names |
| DomTree.StripAttrs | module/ModuleDirectiveParser.js:153-157 | stripping keeps exactly the attributes that are not directives |
| DomTree.NoDirectivesAnyId | module/ModuleDirectiveParser.js:79-89 | attributes with no directive prefix contribute no directive |
| DomTree.StripAll | module/ModuleDirectiveParser.js:153-157 | stripping a sequence of nodes keeps its length |
| DomTree.StripCollectsNothing | module/ModuleDirectiveParser.js:153-157 | the tree with every directive attribute removed yields no directive; it is the reference `Compiler.ParsedCollectsNothing` compares the tree parse leaves against |
| DomTree.StripAllCollectsNothing | module/ModuleDirectiveParser.js:153-157 | the same for a sequence of children |
| DomTree.StripKeepsIds | module/ModuleDirectiveParser.js:153-157 | removing directives keeps every element |
| DomTree.StripAllKeepsIds | module/ModuleDirectiveParser.js:153-157 | the same for a sequence of children |
| DomTree.RemoveDirectiveAll | module/ModuleDirectiveParser.js:153-157 | removing one directive keeps the number of nodes |
| DomTree.SetDisplayAll | module/ModuleDirectiveParser.js:352 | setting one element's display keeps the number of nodes |
| DomTree.AttrDirectivesRemoved | module/ModuleDirectiveParser.js:153-157 | after `removeAttribute(name)` every directive the attributes give was there before, and none comes from an attribute of that name |
| DomTree.RemoveDirectiveCollect | module/ModuleDirectiveParser.js:153-157 | after removeDirective(element, name) collecting finds only directives found before, and none from that attribute of that element |
| DomTree.RemoveDirectiveAllCollect | module/ModuleDirectiveParser.js:153-157 | the same for a sequence of children |
| DomTree.SetDisplayCollect | module/ModuleDirectiveParser.js:352 | setting a display leaves the collected directives as they were |
| DomTree.SetDisplayAllCollect | module/ModuleDirectiveParser.js:352 | the same for a sequence of children |
| DomTree.SetDisplayThenRead | module/ModuleDirectiveParser.js:352 | after setting an element's display it reads as the new display |
| DomTree.SetDisplayAllThenRead | module/ModuleDirectiveParser.js:352 | the same within a sequence of children |
| DomTree.SetDisplayMissing | module/ModuleDirectiveParser.js:352 | setting the display of an element outside the tree leaves it absent |
| DomTree.SetDisplayAllMissing | module/ModuleDirectiveParser.js:352 | the same within a sequence of children |
| DomTree.StampKeys | module/ModuleDirectiveParser.js:110-122 | the counter never goes back |
| DomTree.StampKeysAll | module/ModuleDirectiveParser.js:110-122 | stamping children keeps their number and never moves the counter back |
| DomTree.StampKeysKeys | module/ModuleDirectiveParser.js:110-122 | after stamping from an element every element below it has a non-empty data-key, and a key already present is kept |
| DomTree.StampKeysAllKeys | module/ModuleDirectiveParser.js:110-122 | the same for a sequence of children |
| DomTree.FragmentRootUnstamped | module/ModuleDirectiveParser.js:112 | from a fragment root nothing is stamped, since the walk only enters elements |
| DomTree.StampKeysKeepsDirectives | module/ModuleDirectiveParser.js:110-122 | stamping data-keys changes no directive |
| DomTree.StampKeysAllKeepsDirectives | module/ModuleDirectiveParser.js:110-122 | the same for a sequence of children |
| DomTree.SetAttrKeepsDirectives | module/ModuleDirectiveParser.js:115 | setting an attribute without a directive prefix changes no directive |
| DomTree.OfFamily | module/ModuleDirectiveParser.js:23-59 | selecting a family keeps only directives of that family |
| DomTree.OfFamilyMembers | module/ModuleDirectiveParser.js:23-59 | a directive is selected exactly when it is collected and of that family |
| DomTree.OfFamilyStep | module/ModuleDirectiveParser.js:23-59 | selection takes the head exactly when it is of that family |
| DomTree.FamiliesPartition | module/ModuleDirectiveParser.js:23-59 | the parse order (state, list, view, control, conditional) handles every collected directive exactly once, and an item's nested order handles all but its list directives |
| DomTree.FamilySum | module/ModuleDirectiveParser.js:23-59 | the five families together are the whole collection |
| DomTree.FamilyBagStep | module/ModuleDirectiveParser.js:23-59 | the first directive falls in exactly one of the five families |
| DomTree.FamilyBagAll | module/ModuleDirectiveParser.js:23-59 | the five families together count every directive once |
| DomTree.ParseHandlesEach | module/ModuleDirectiveParser.js:23-59 | parsing a tree handles each of its directives exactly once |
| DomTree.FollowPathUndefined | module/ModuleDirectiveParser.js:298-302 | a path read from a falsy start stays undefined |
| DomTree.FollowPathAppend | module/ModuleDirectiveParser.js:298-302 | reading a joined path is reading the first part and then the second |
| DomTree.GetValueFromContext | module/ModuleDirectiveParser.js:297-303 | the read throws exactly on a null or undefined context, and otherwise follows the dotted path from the context's item |
| DomTree.EvaluateCondition | module/ModuleDirectiveParser.js:314-323 | a condition holds exactly when there is a context and the value at its path from the item is truthy; a thrown read counts as false |
| DomTree.ConditionalDisplay | module/ModuleDirectiveParser.js:347-353 | the element is shown exactly when its condition holds, and always gets an explicit display |
| DomTree.TopLevelConditionalHidden | module/ModuleDirectiveParser.js:55-58 | a conditional directive outside a list has no context and is hidden |
| DomTree.ItemFieldCondition | module/ModuleDirectiveParser.js:314-323 | a single-key condition holds exactly when the item has that key with a truthy value |
| DomTree.ListSource | module/ModuleDirectiveParser.js:188-190 | an array override is used as it is; otherwise a falsy state entry gives the empty list, an array state entry its elements, and any other truthy entry makes the iteration throw |
| DomTree.ListSourceOverride | module/ModuleDirectiveParser.js:188-190 | a value that is not an array is ignored as if absent, and passing a rendered list back as the value renders the same list whatever the state holds |
| DomTree.ItemContext | module/ModuleDirectiveParser.js:201-205 | each item's context holds exactly three keys: the item, the whole list and the index |
| DomTree.ItemContextsRecoverList | module/ModuleDirectiveParser.js:201-205 | each context finds its own item in the list it carries at the index it carries; contexts of different positions differ, and their items recover the list in order |
| DomTree.KeepTemplate | module/ModuleDirectiveParser.js:182-184 | clearing the container keeps exactly its text nodes and the template, and nothing else |
| DomTree.RenderedChildren | module/ModuleDirectiveParser.js:182-214 | after a list render the container holds what clearing kept followed by the clones in order |
| DomTree.RerenderReplaces | module/ModuleDirectiveParser.js:182-214 | rendering again replaces the earlier clones, so the result depends only on the last render |
| DomTree.KeepTemplateIdempotent | module/ModuleDirectiveParser.js:182-184 | clearing twice is clearing once |
| DomTree.KeepTemplateAppend | module/ModuleDirectiveParser.js:182-184 | clearing distributes over concatenation |
| DomTree.KeepTemplateDropsClones | module/ModuleDirectiveParser.js:182-184 | clearing removes every element clone of an earlier render |
| DomTree.DropAll | module/ModuleDirectiveParser.js:182-184 | clearing removes every element other than the template |
| DomTree.Renumber | module/ModuleDirectiveParser.js:197 | cloning never moves the id counter back |
| DomTree.RenumberAll | module/ModuleDirectiveParser.js:197 | cloning children keeps their number and never moves the id counter back |
| DomTree.RenumberFresh | module/ModuleDirectiveParser.js:197 | every element of a clone gets a fresh id from the counter's new range |
| DomTree.RenumberAllFresh | module/ModuleDirectiveParser.js:197 | the same for a sequence of children |
| DomTree.RenumberKeepsDirectiveCount | module/ModuleDirectiveParser.js:197 | a deep clone carries as many directives as the template |
| DomTree.RenumberAllKeepsDirectiveCount | module/ModuleDirectiveParser.js:197 | the same for a sequence of children |
| DomTree.AttrDirectivesCount | module/ModuleDirectiveParser.js:79-89 | the number of directives of an element does not depend on its id |
| DomTree.Find | module/ModuleDirectiveParser.js:175 | a found node is the element with that id |
| DomTree.FindAll | module/ModuleDirectiveParser.js:175 | the same within a sequence of children |
| DomTree.ReplaceChildrenAll | module/ModuleDirectiveParser.js:182-214 | replacing one container's children keeps the number of nodes |
| DomTree.ReplaceRootChildren | module/ModuleDirectiveParser.js:182-214 | replacing the children of the root itself installs the new children |
| View.TextOf | module/ModuleView.js:24 | null and undefined show as the empty string; View.TextOfShown states the rest |
| View.TextOfShown | module/ModuleView.js:24 | the text shown is never null or undefined, a truthy value is shown as it is, and showing the shown text again changes nothing |
| View.RunAll | module/ModuleView.js:44 | the relay makes one render per callback |
| View.RunAllPointwise | module/ModuleView.js:44 | the i-th render is the i-th callback's |
| View.RunAllAppend | module/ModuleView.js:44-51 | a callback pushed last renders last, after all earlier ones |
| View.RelayCountZero | module/ModuleView.js:38-47 | a count of zero relays means the listener set holds no relay for the key |
| View.RelayCountAppend | module/ModuleView.js:41 | subscribing a relay for the key raises the count by one; any other listener leaves it |
| View.ModuleView.constructor | module/ModuleView.js:7-10 | a new view has an empty render map over the given store |
| View.ModuleView.RelayRenders | module/ModuleView.js:41-46 | the relay runs every callback of the key in registration order, and nothing once the key has no array |
| View.ModuleView.RunRelay | module/ModuleView.js:41-46 | the relay's loop makes exactly the renders RelayRenders describes |
| View.ModuleView.RegisterRender | module/ModuleView.js:36-52 | the key's array gains the callback at its end; only the first registration of a key subscribes a fresh relay, and later ones leave the store's listeners alone |
| View.ModuleView.Subscribe | module/ModuleView.js:38-47 | a first registration creates the empty array and adds one new relay to the key's listener set |
| View.ModuleView.Append | module/ModuleView.js:50-51 | a key with an array gets the callback appended |
| View.ModuleView.BindRenderToElement | module/ModuleView.js:19-27 | every later notify of the key renders into the element, through the renderer when one is given and as text otherwise, after the earlier callbacks; the first binding of a key subscribes exactly one new relay to the store, and later bindings leave the store's listeners alone |
| View.Without | module/ModuleView.js:63 | the filter keeps every callback different from the removed one, in order, and drops all its occurrences |
| View.WithoutAppend | module/ModuleView.js:63 | filtering distributes over concatenation |
| View.ModuleView.RemoveRenderForKey | module/ModuleView.js:60-71 | the key keeps its array without the callback, or loses its entry when nothing is left; an unknown key and all other keys are unchanged |
| View.ModuleView.UnregisterRender | module/ModuleView.js:78-86 | the key's entry goes; for a known key the call of the store's missing `unlisten` then throws a TypeError, and an unknown key only warns |
| View.ModuleView.UnbindAll | module/ModuleView.js:117-119 | the render map is cleared, so every relay still subscribed renders nothing |
| View.ModuleView.RenderTextContent | module/ModuleView.js:94-99 | a missing element is a type error; otherwise the element's text becomes the value |
| View.ItemLabel | module/ModuleView.js:111 | the label is always truthy: the item's name when it has a truthy one, else "Unknown" |
| View.ItemLabelOfNamedItem | module/ModuleView.js:111 | an item with a truthy name is labelled with that name |
| View.ItemLabelWithoutItem | module/ModuleView.js:111 | a context without an item object is labelled "Unknown" |
| View.ModuleView.RenderItem | module/ModuleView.js:107-112 | a missing element is a type error; otherwise the element's text becomes the item's label |
| View.ModuleView.EffectsOfRelays | module/ModuleView.js:38-47 | n relays of one key in the listener set render that key's callbacks n times over |
| View.ModuleView.SubscribedOnceRendersOnce | module/ModuleView.js:38-47 | with one relay subscribed, a notify runs each callback once |
| View.ModuleView.ResubscribedRendersTwice | module/ModuleView.js:38-47 | a key registered again after unbindAll has two relays, and a notify runs each callback twice |
| Control.ValidateEventName | module/ModuleControl.js:188-192 | an event name passes exactly when it is a string that is not blank after trimming |
| Control.BlankNameRefused | module/ModuleControl.js:188-192 | an all-whitespace name is refused |
| Control.TrimStartBlank | module/ModuleControl.js:189 | trimming an all-whitespace name leaves nothing |
| Control.ValidateBinding | module/ModuleControl.js:31-34 | the validations run in order: the element, then the event name, then the handler, and the first failure is reported |
| Control.AgreeBind | module/ModuleControl.js:39-53 | storing a closure for a free pair keeps the element table and the element listeners in agreement |
| Control.AgreeUnbind | module/ModuleControl.js:65-74 | dropping a pair keeps that agreement, and exactly that pair stops being bound |
| Control.ModuleControl.constructor | module/ModuleControl.js:14-23 | a new control starts with empty handler and callback tables |
| Control.ModuleControl.Create | module/ModuleControl.js:14-17 | construction without a store is refused with the invalid-state error |
| Control.ModuleControl.FireCallsBoundHandler | module/ModuleControl.js:36 | an event on a bound pair calls its handler once with the event, the element and the store's snapshot; an unbound pair calls nothing |
| Control.ModuleControl.BindElementEvent | module/ModuleControl.js:31-54 | a valid, free pair gains a fresh closure in the table and on the element; a validation failure or an already bound pair throws and changes nothing |
| Control.ModuleControl.Attach | module/ModuleControl.js:39-53 | the closure is stored for its pair and attached as the element's listener |
| Control.ModuleControl.DetachElementEvent | module/ModuleControl.js:61-78 | a bound pair loses its closure, and an element left with none leaves the table; every other pair stays bound; an invalid argument or an unbound pair throws |
| Control.ModuleControl.Detach | module/ModuleControl.js:65-74 | the pair's listener comes off the element and its entry goes, and nothing else |
| Control.ModuleControl.DetachListeners | module/ModuleControl.js:89-91 | every listener of the element comes off it, and the listeners of all other elements stay |
| Control.ModuleControl.DetachAllEvents | module/ModuleControl.js:84-94 | a non-element throws; otherwise the element's listeners come off and its entry goes |
| Control.ModuleControl.DetachBus | module/ModuleControl.js:109-113 | every tracked callback comes off the event bus |
| Control.ModuleControl.CleanupEvents | module/ModuleControl.js:99-115 | the first call removes every element listener and every bus callback, so no later dispatch calls anything; it installs a WeakMap, which cannot be iterated, so a second call throws a TypeError |
| Control.ModuleControl.On | module/ModuleControl.js:123-135 | after the name and callback checks, the callback is added once to the event's set and to the bus |
| Control.ModuleControl.Off | module/ModuleControl.js:143-157 | after the name and callback checks, the callback leaves the event's set and the bus, and an emptied set is dropped |
| Control.ModuleControl.Dispatch | module/ModuleControl.js:165-170 | an invalid name throws; otherwise each tracked callback of the event is called once, in insertion order, with the detail, which defaults to an empty object |
| Control.Removed | module/ModuleControl.js:152 | `Set.delete`: the callback is gone and every other member stays |
| Control.RemovedHead | module/ModuleControl.js:152 | deleting the first member of a set leaves the rest |
| Control.RemovedAppend | module/ModuleControl.js:152 | deleting the last added callback undoes the add |
| Control.Inserted | module/ModuleControl.js:134 | `Set.add`: appended when new, otherwise unchanged, so no duplicates appear |
| Control.TableAdd | module/ModuleControl.js:131-134 | the event's set, created when missing, gains the callback |
| Control.TableRemove | module/ModuleControl.js:151-156 | an unknown event is unchanged; the event keeps its set without the callback, or goes when the set empties |
| Control.TableAddIdempotent | module/ModuleControl.js:131-134 | registering the same callback twice is registering it once |
| Control.TableRemoveAdd | module/ModuleControl.js:123-157 | `off` undoes an `on` of a callback the event did not have |
| Lifecycle.DefaultRender | module/Module.js:62-65 | the fallback renderer writes into the text of the element it is given and of no other |
| Lifecycle.DefaultRenderAgreesWithView | module/Module.js:62-65 | the module's fallback renderer and a view binding without a renderer (module/ModuleView.js:24) show the same text for every value |
| Lifecycle.ModuleName | module/Module.js:34 | the name is the configured name, a dash and the random suffix; a null or undefined config throws a TypeError |
| Lifecycle.InitialStore | module/Module.js:91 | a falsy initial state is replaced by an empty object, and any other is used as it is; Lifecycle.InitialStoreChoice states what follows |
| Lifecycle.InitialStoreChoice | module/Module.js:91 | the store always starts from a truthy value, choosing twice is choosing once, and it is object-like exactly when the given state is falsy or object-like |
| Lifecycle.Module.constructor | module/Module.js:20-54 | a new element has a name, no renderers and no state, control or view, and is not initialized |
| Lifecycle.Module.Create | module/Module.js:20-54 | the validations run in order: instantiating Module itself, a missing `initializeModule`, a null config; on success the element is registered under its name with the manager, and a name already taken makes the registration throw |
| Lifecycle.Module.Renderer | module/Module.js:39-42 | a renderer lookup finds an assigned function first, then a member the empty target inherits from Object.prototype (such as `constructor`), then a member of the view, then the default renderer bound to the name |
| Lifecycle.Module.SetRenderer | module/Module.js:43-50 | a function is stored and found by later lookups; any other value is refused and the strict-mode assignment throws a TypeError |
| Lifecycle.Module.ConnectedCallback | module/Module.js:81-103 | a second call only warns; the first builds a fresh store, control and view with no listeners or bindings and marks the element initialized; a constructor error is caught and logged, and the element stays uninitialized |
| Lifecycle.Module.GetState | module/Module.js:160-162 | before connection, or after cleanup, reading the state throws; otherwise it yields the store's values |
| Lifecycle.Module.SetState | module/Module.js:170-173 | a non-string key throws; with no store the call does nothing; otherwise the store's setState runs and the view's callbacks render the notify |
| Lifecycle.Module.BindState | module/Module.js:180-182 | the key gains a text binding into the element, rendered after the key's earlier callbacks; without a view the call throws a TypeError |
| Lifecycle.Module.BindEvent | module/Module.js:191-199 | a non-element or a non-function throws first; otherwise the control's bindElementEvent runs, and without a control the call throws a TypeError; with a control the binding succeeds exactly when the event name is valid and that element and event are not bound yet (module/ModuleControl.js:31-50) |
| Lifecycle.Module.Cleanup | module/Module.js:205-221 | the steps run in order: the view unbinds all, the control cleans up, the store is destroyed and dropped; a control whose tables were already cleaned up throws, and nothing after it runs |
| Lifecycle.Module.DisconnectedCallback | module/Module.js:118-122 | cleanup runs and the element is unregistered from the manager; when cleanup throws, the element stays registered |
| Manager.Singleton.constructor | module/ModuleManager.js:6-15 | no manager exists before the first construction |
| Manager.Singleton.NewManager | module/ModuleManager.js:6-15 | the first construction makes an empty manager and records it; every later one returns that same instance and changes nothing |
| Manager.ModuleManager.constructor | module/ModuleManager.js:10-13 | a fresh manager has empty module, renderer and handler tables |
| Manager.ModuleManager.RegisterModule | module/ModuleManager.js:24-29 | a taken name throws and changes nothing; a new name maps to the module |
| Manager.ModuleManager.UnregisterModule | module/ModuleManager.js:37-43 | a name that is not registered throws; a registered one is removed |
| Manager.ModuleManager.GetModule | module/ModuleManager.js:50-52 | yields the registered module, or nothing (undefined) for an absent name |
| Manager.ModuleManager.RegisterRenderer | module/ModuleManager.js:227-232 | a non-function throws and changes nothing; a function is stored, overwriting an earlier one, and getRenderer then yields it |
| Manager.ModuleManager.RegisterHandler | module/ModuleManager.js:239-244 | a non-function throws and changes nothing; a function is stored, overwriting an earlier one, and getHandler then yields it |
| Manager.ModuleManager.GetRenderer | module/ModuleManager.js:251-253 | yields the stored renderer, or null for an absent name |
| Manager.ModuleManager.GetHandler | module/ModuleManager.js:260-262 | yields the stored handler, or null for an absent name |
| Manager.Lookup | module/ModuleManager.js:252 | an absent or falsy entry reads as null; Manager.LookupAfterStore states how lookups follow stores |
| Manager.LookupAfterStore | module/ModuleManager.js:227-253 | a lookup never yields a falsy value other than null; a truthy entry just stored is found, and a store under one name leaves the lookups of every other name unchanged |
| Manager.ModuleManager.SplitProps | module/ModuleManager.js:83-96 | the loop over the props yields exactly the function props and the data attributes that FunctionProps and DataAttrs describe |
| Manager.FunctionProps | module/ModuleManager.js:86-88 | the function props hold only functions, every function-valued prop appears under its key, and every entry comes from such a prop |
| Manager.DataAttrs | module/ModuleManager.js:89-91 | every data attribute comes from a non-function prop |
| Manager.PropsSplitExactly | module/ModuleManager.js:83-96 | each prop goes exactly one way: the function props number the function-valued props, and together with the data attributes they account for every prop |
| Manager.InjectNames | module/ModuleManager.js:273-279 | injection throws for a `classRef` that is not a function, or for names that are not an array of strings; a missing list defaults to none; otherwise the names are taken in order |
| Manager.InjectedGet | module/ModuleManager.js:283-285 | the injected getter yields the instance's own `_name` when it is truthy, else the global entry or null |
| Manager.InjectedSet | module/ModuleManager.js:286-292 | the injected setter stores a function under `_name` and ignores anything else |
| Manager.InjectedSetThenGet | module/ModuleManager.js:283-292 | after the setter stores a function, the getter yields it |
| Manager.InjectedSetIgnored | module/ModuleManager.js:286-292 | assigning a non-function leaves what the getter yields unchanged |
| ResetState.Resolve | utils/module-resetState.js:25 | the reduce with `acc && acc[part]` yields a falsy start itself, whatever the path, and an empty path yields the start |
| ResetState.ParentPathResolves | utils/module-resetState.js:44-46 | joining the parent parts with dots and splitting again resolves the same path |
| ResetState.ObjectKeys | utils/module-resetState.js:15 | `Object.keys` lists an object's own keys in their order and an array's indices |
| ResetState.KeyList | utils/module-resetState.js:14-21 | null or an omitted argument selects every own key, a string becomes a one-key list, and a list is taken as given; anything else, or an entry that is not a string, makes the filter throw a TypeError (array entries differ, see Left out) |
| ResetState.HasProperty | utils/module-resetState.js:33 | on an object, `key in props` holds exactly for its own keys (inherited members are left out); on a primitive it throws a TypeError |
| ResetState.SelectKeys | utils/module-resetState.js:28-34 | the filter keeps, in their order, exactly the plain keys present in props and the dotted keys whose path resolves to something other than undefined; it throws exactly when one key's test throws |
| ResetState.Plan | utils/module-resetState.js:14-34 | the keys to reset are a subsequence of the key list, and a key list that throws makes the plan throw |
| ResetState.Assign | utils/module-resetState.js:47 | assigning into an object sets the field; assigning into a primitive other than a function throws a TypeError |
| ResetState.WriteAt | utils/module-resetState.js:46-47 | a parent path that resolves to a falsy value leaves props unchanged |
| ResetState.WriteThenResolve | utils/module-resetState.js:46-47 | after the write through a path of objects, the path still names objects and the field under it holds the written value |
| ResetState.ParentParts | utils/module-resetState.js:44-45 | the parent parts are the split key without its last part |
| ResetState.PartsOfKey | utils/module-resetState.js:44-45 | the parent parts and the popped last part rebuild the split key, and no part contains a dot |
| ResetState.DottedParts | utils/module-resetState.js:44 | a dotted key splits into at least two parts |
| ResetState.DatasetSet | utils/module-resetState.js:49 | the dataset setter (HTML standard, section 3.2.6.6) throws a SyntaxError for a hyphen before an ASCII lowercase letter, otherwise an InvalidCharacterError when `data-` and the dasherized key is not an XML Name, and otherwise sets exactly that entry |
| ResetState.DasherizeNameChars | utils/module-resetState.js:49 | dasherizing keeps a key's characters all NameChars exactly when they were |
| ResetState.DatasetKeyAccepted | utils/module-resetState.js:49 | the setter accepts a key exactly when it has no hyphen before a lowercase letter and every character is a NameChar |
| ResetState.ResetKey | utils/module-resetState.js:41-51 | a plain key the setter accepts copies `props[key]` into the dataset and leaves props; a plain key it refuses throws the setter's error; a dotted key leaves the dataset alone |
| ResetState.DottedResetLands | utils/module-resetState.js:43-47 | a dotted key whose parents are objects gets `props[key]` written at the end of its path |
| ResetState.LandsAt | utils/module-resetState.js:46-47 | the rebuilt parent path resolves to a truthy object, and the write lands under the last part |
| ResetState.ObjectPathResolves | utils/module-resetState.js:25 | a path through objects resolves to an object |
| ResetState.DottedResetClearsField | utils/module-resetState.js:47 | props has no field under the whole dotted key, so the reset writes undefined at the end of the path |
| ResetState.PlainKeysReset | utils/module-resetState.js:41-51 | with only plain keys the setter accepts, nothing throws, props stays, and the dataset receives each key's prop in turn |
| ResetState.PlainKeysStopAtRefused | utils/module-resetState.js:41-51 | with plain keys, the first key the setter refuses throws its error after the keys before it were copied, and no later key is reached |
| ResetState.FilledKeys | utils/module-resetState.js:49 | the dataset afterwards holds its old keys and the reset keys |
| ResetState.FilledValues | utils/module-resetState.js:49 | every reset key holds its prop's value, and every other entry keeps its value |
| ResetState.PlainKeysFillDataset | utils/module-resetState.js:41-51 | with only plain keys the setter accepts, nothing throws, props stays, every reset key holds its prop's value in the dataset, and the other entries are unchanged |
| ResetState.ModuleInstance.constructor | utils/module-resetState.js:8 | the instance holds the given name, props and dataset |
| ResetState.ResetModuleState | utils/module-resetState.js:8-54 | missing props or an empty selection only warn and change nothing; a key list that throws changes nothing; otherwise props and dataset are what resetting the selected keys in order gives, stopping at the first key that throws |
| ResetState.ResetSelected | utils/module-resetState.js:41-54 | the selected keys are reset in order, props and dataset ending as resetting those keys gives, and the loop throws exactly when a key throws |
| ResetState.ResetKeysStep | utils/module-resetState.js:41-51 | resetting one more key, after keys that did not throw, runs that key on their result |
| ResetState.PrefixThrownStays | utils/module-resetState.js:41 | once a key has thrown, the later keys change nothing |
| RegistrationForm.SanitizeEmail | components/RegistrationForm.js:158-160 | under ASCII case mapping, the sanitized email is no longer than the input, has no uppercase ASCII letter, and neither starts nor ends with whitespace |
| RegistrationForm.LowerKeepsWhitespace | components/RegistrationForm.js:159 | lowercasing neither creates nor removes whitespace |
| RegistrationForm.TrimTrimmed | components/RegistrationForm.js:159 | a string without whitespace at either end is its own trim |
| RegistrationForm.SanitizeEmailIdempotent | components/RegistrationForm.js:158-160 | sanitizing twice is sanitizing once |
| RegistrationForm.LastIndexOf | components/RegistrationForm.js:170 | the index found holds the character, and no later index does; -1 means it is absent |
| RegistrationForm.EmailMatchIff | components/RegistrationForm.js:170 | the scan (first `@`, last `.` after it) accepts exactly the strings that match the pattern |
| RegistrationForm.EmailAtScans | components/RegistrationForm.js:170 | any way of matching the pattern is found by the scan |
| RegistrationForm.AtIsFirst | components/RegistrationForm.js:170 | the local part has no `@`, so the pattern's `@` is the first one |
| RegistrationForm.DotIsLast | components/RegistrationForm.js:170 | the top-level part is all letters, so the dot before it is the last one |
| RegistrationForm.EmailAtOneAt | components/RegistrationForm.js:170 | a matching email has exactly one `@` |
| RegistrationForm.ValidateEmail | components/RegistrationForm.js:168-177 | the value sanitized under ASCII case mapping is accepted exactly when it matches the pattern, and `email_error` is cleared; otherwise the result is null and `email_error` holds the message |
| RegistrationForm.AcceptedEmail | components/RegistrationForm.js:168-177 | an accepted email has exactly one `@`, not first, no uppercase letter, and validating it again gives the same result |
| RegistrationForm.KeepWordChars | components/RegistrationForm.js:186 | the regex replacement keeps exactly the word characters, and them only; a string of word characters is kept whole |
| RegistrationForm.SanitizeUsername | components/RegistrationForm.js:185-187 | the sanitized username holds only ASCII letters, digits and underscores |
| RegistrationForm.KeepWordCharsAppend | components/RegistrationForm.js:186 | the replacement works character by character, so it distributes over concatenation |
| RegistrationForm.KeepTrimStart | components/RegistrationForm.js:186 | trimming the start removes nothing the replacement would keep |
| RegistrationForm.KeepTrimEnd | components/RegistrationForm.js:186 | trimming the end removes nothing the replacement would keep |
| RegistrationForm.SpaceIsNotWord | components/RegistrationForm.js:186 | whitespace is never a word character |
| RegistrationForm.KeepDropLast | components/RegistrationForm.js:186 | a trailing non-word character contributes nothing |
| RegistrationForm.SanitizeUsernameIgnoresTrim | components/RegistrationForm.js:185-187 | the trim makes no difference: the result is the replacement of the raw input |
| RegistrationForm.SanitizeUsernameIdempotent | components/RegistrationForm.js:185-187 | sanitizing twice is sanitizing once |
| RegistrationForm.ValidateUsername | components/RegistrationForm.js:195-203 | accepted exactly when the sanitized value has at least 5 characters, and then it is returned and `username_error` cleared; otherwise null with the too-short message |
| RegistrationForm.ValidatePassword | components/RegistrationForm.js:211-224 | the value, unchanged, is accepted exactly when it matches the pattern; a value under 8 code units gets the too-short message, and a longer one that fails gets the complexity message |
| RegistrationForm.ForeignCharacterRefused | components/RegistrationForm.js:217-221 | one character outside the allowed class makes the password refused |
| RegistrationForm.Context.constructor | components/RegistrationForm.js:73 | the context holds the given fields |
| RegistrationForm.ItemId | components/RegistrationForm.js:75 | the id is the module name, a dash and a timestamp |
| RegistrationForm.NewItem | components/RegistrationForm.js:76 | a new item has exactly the fields id, name and isVisible, with its id and visibility true |
| RegistrationForm.AddItem | components/RegistrationForm.js:73-95 | exactly one new item is appended to the list the details name; when that list is the store's array (module/ModuleDirectiveParser.js:495-498), the item is written into the store and the listeners of the new index and then of `length` are called with the grown array (module/ModuleState.js:72-90), before setState gets the list and its new length; a target that is not an array throws a TypeError, a push past the largest length a RangeError, and nothing changes |
| RegistrationForm.PushSteps | module/ModuleState.js:86-90 | a push is an index write at the old length and a `length` write of the new length, and both hand the grown array to the listeners |
| RegistrationForm.KeepOthers | components/RegistrationForm.js:108 | the filter throws exactly when an item is null or undefined, and never grows the list |
| RegistrationForm.KeepOthersStep | components/RegistrationForm.js:108 | the filter keeps the first item exactly when its id differs, then filters the rest |
| RegistrationForm.KeepOthersMembers | components/RegistrationForm.js:108 | the kept items are exactly the items whose id differs from the target |
| RegistrationForm.KeepOthersAbsent | components/RegistrationForm.js:108 | with no item carrying the target id, the list is kept whole |
| RegistrationForm.KeepOthersUnique | components/RegistrationForm.js:108 | when the id is unique, exactly that one item goes and the rest keep their order |
| RegistrationForm.RemoveItem | components/RegistrationForm.js:105-129 | the list keeps exactly the items whose id differs from the item's id, or the context's when that is falsy; setState gets the list and its length and the element's events are detached; a missing item or a non-array list throws and nothing changes |
| RegistrationForm.AddThenRemove | components/RegistrationForm.js:73-129 | removing the item just added gives back the list as it was |
| HandlerChains.RunStateChain | module/ModuleDirectiveParser.js:694-715 | the handler loop of a state directive computes exactly the chain run: absent or falsy members are skipped, an invalid result stops gracefully after an ampersand and throws after a hash, and otherwise the value becomes the new value or, when that is falsy, stays |
| HandlerChains.ChainKeepsTruthy | module/ModuleDirectiveParser.js:713 | a truthy element value stays truthy through every chain that completes |
| HandlerChains.ChainCallsMethods | module/ModuleDirectiveParser.js:694-715 | a completed chain calls at most one handler per stage, only functions of the module, and a graceful stop names the last handler called |
| HandlerChains.ChainAllValid | module/ModuleDirectiveParser.js:694-715 | when every stage names a function that returns truthy values, every handler is called in order and the chain is not stopped |
| HandlerChains.HardStopNamesHandler | module/ModuleDirectiveParser.js:705-709 | an invalid result after a hash stage throws the chaotic-stop error naming that handler |
| HandlerChains.SoftStopKeepsValue | module/ModuleDirectiveParser.js:699-704 | an invalid result after an ampersand stage ends the chain with the value it had |
| HandlerChains.StateDirectiveEvent | module/ModuleDirectiveParser.js:690-719 | a state directive's listener always fails: with the chain's own error when the chain throws, and otherwise when it writes to the read-only state view |
| HandlerChains.StateChainContext | module/ModuleDirectiveParser.js:779-782 | the context holds the keys of both; item keys win, and every state key absent from the item keeps its state value |
| HandlerChains.StateChainContextOverlay | module/ModuleDirectiveParser.js:779-782 | without an item the chain sees the state snapshot itself, as at the top level; state keys an item shadows are never seen; overlaying the item twice is overlaying it once |
| HandlerChains.OptionalCall | module/ModuleDirectiveParser.js:495-503 | an optional call invokes the member exactly when it is a function, skips it when absent or nullish, and throws for any other member |
| HandlerChains.Broadcast | module/ModuleDirectiveParser.js:542-549 | the star operator dispatches the result under each trimmed comma-separated name in order, and throws at the first blank name after the earlier dispatches |
| HandlerChains.ControlContext | module/ModuleDirectiveParser.js:495-503 | the handler sees the state snapshot, and with a colon and details also receives those details |
| HandlerChains.FireControl | module/ModuleDirectiveParser.js:490-585 | a fired control listener calls its first handler when it is a function, calls at most two handlers, and without details or operator has no further effect |
| HandlerChains.ApplyOperator | module/ModuleDirectiveParser.js:509-583 | each operator acts on the details as written: the ampersand and hash call the details' handler unless the result is invalid (a graceful stop or a throw), the angle bracket and star dispatch, the at sign needs an async handler, the colon does nothing and any other operator throws |
| HandlerChains.CompileDispatch | module/ModuleDirectiveParser.js:477-488 | a directive of the form name, angle bracket, event reads as that handler, the dispatch operator and that event |
| HandlerChains.SplitOfPlain | module/ModuleDirectiveParser.js:509 | splitting text free of the separator gives the text itself |
| HandlerChains.FireDispatch | module/ModuleDirectiveParser.js:535-540 | firing a dispatch directive calls the handler once and dispatches its result once under the named event |
| HandlerChains.ApplyDispatch | module/ModuleDirectiveParser.js:535-540 | the dispatch operator dispatches the result under the event named in the details |
| HandlerChains.DispatchScenario | module/ModuleDirectiveParser.js:475-586 | binding and firing a dispatch directive calls its handler and dispatches the handler's result |
| HandlerChains.UnknownOperatorThrows | module/ModuleDirectiveParser.js:581-583 | a pipe operator with details throws the invalid-operator error when fired |
| HandlerChains.AsyncRequired | module/ModuleDirectiveParser.js:551-556 | the at sign with a handler that is missing or not async throws when fired |
| HandlerChains.FireControlWithContext | module/ModuleDirectiveParser.js:381-430 | inside a list item a control listener calls at most its own handler, and only the dispatch and async operators have an effect |
| Compiler.GrowsTransitive | module/ModuleDirectiveParser.js:23-59 | parsing only ever adds closures, event bindings and render callbacks, and adding twice is adding |
| Compiler.KeepsWired | module/ModuleDirectiveParser.js:23-59 | an event wired by an earlier directive stays wired as parsing goes on |
| Compiler.KeepsRenders | module/ModuleDirectiveParser.js:23-59 | a render callback registered by an earlier directive stays registered |
| Compiler.KeepsStates | module/ModuleDirectiveParser.js:31-34 | the state directives handled so far, and the one just handled, are all wired |
| Compiler.KeepsControls | module/ModuleDirectiveParser.js:49-52 | the control directives handled so far, and the one just handled, are all wired |
| Compiler.KeepsViews | module/ModuleDirectiveParser.js:43-46 | the view directives handled so far, and the one just handled, are all wired |
| Compiler.StatesStay | module/ModuleDirectiveParser.js:23-59 | the wiring of every state directive survives the later passes |
| Compiler.ControlsStay | module/ModuleDirectiveParser.js:23-59 | the wiring of every control directive survives the later passes |
| Compiler.ViewsStay | module/ModuleDirectiveParser.js:23-59 | the wiring of every view directive survives the later passes |
| Compiler.BindKeeps | module/ModuleControl.js:39-53 | binding a free element and event pair installs that binding and keeps every other one |
| Compiler.BindFreeKept | module/ModuleControl.js:39-50 | binding one element and event pair leaves every other free pair free |
| Compiler.SameHandlers | module/ModuleView.js:36-52 | a step that binds no event leaves every free pair free and every bindable list bindable |
| Compiler.FreeKeptChain | module/ModuleControl.js:39-50 | two steps together take no pair outside the pairs each one binds |
| Compiler.FreeKeptPrefix | module/ModuleControl.js:39-50 | a pass that took no pair outside the first directives handled took none outside all of them |
| Compiler.BindableSplit | module/ModuleDirectiveParser.js:30-52 | when the state and control pairs together can be bound, the state pairs can, and after a state pass that took no other pair the control pairs still can |
| Compiler.BoundNothing | module/ModuleDirectiveParser.js:31-34 | before a pass has bound anything, every pair it will bind is free |
| Compiler.BindStep | module/ModuleDirectiveParser.js:31-34 | binding the next pair of a bindable list finds it free and not blank, and keeps the later pairs free |
| Compiler.WiredAfterPasses | module/ModuleDirectiveParser.js:30-58 | the states wired by the early passes and the views and controls wired by the late passes together make the whole parse wired |
| Compiler.PassDone | module/ModuleDirectiveParser.js:31-52 | a state or control pass that has handled every directive has wired all of them, removed all their attributes and taken no other pair |
| Compiler.AppendRenders | module/ModuleView.js:36-52 | appending a bound render callback keeps the earlier ones and makes the key render into that element |
| Compiler.StrippedStep | module/ModuleDirectiveParser.js:153-157 | removing one more directive's attribute is one more removal step |
| Compiler.ConditionalPass | module/ModuleDirectiveParser.js:55-58 | the conditional pass sets each element's display from its condition and removes its attribute, in order |
| Compiler.StrippedCollect | module/ModuleDirectiveParser.js:30-53 | after the attributes of a sequence of directives are removed, collecting finds only directives found before, and none whose attribute was removed |
| Compiler.ConditionedCollect | module/ModuleDirectiveParser.js:55-58 | the conditional pass, display writes included, does the same for the `f-` directives it handles |
| Compiler.HandledFamily | module/ModuleDirectiveParser.js:30-58 | without list directives every collected directive belongs to one of the state, view, control and conditional passes |
| Compiler.ParsedCollectsNothing | module/ModuleDirectiveParser.js:30-58 | without list directives, the tree left after handling and removing every directive yields no directive when collected again, the same as the fully stripped tree |
| Compiler.RerenderWithoutArrayIsEmpty | module/ModuleDirectiveParser.js:217-219 | as written, a list re-render that is not given an array reads the state under the suffixed list name, and so renders no items |
| Compiler.ListTarget | module/ModuleDirectiveParser.js:167-179 | a list directive acts only on a template element that has a parent element, and the container is that parent |
| Compiler.ReplaceChildrenTwice | module/ModuleDirectiveParser.js:182-214 | replacing a container's children twice leaves the second children |
| Compiler.ReplaceChildrenAllTwice | module/ModuleDirectiveParser.js:182-214 | the same within a sequence of children |
| Compiler.ModuleDirectiveParser.constructor | module/ModuleDirectiveParser.js:11-15 | a parser starts over its module's root, whose elements have distinct ids below the first clone id, with no closures made and no renderer called |
| Compiler.ModuleDirectiveParser.NewClosure | module/ModuleDirectiveParser.js:490 | a new closure is appended and nothing else changes |
| Compiler.ModuleDirectiveParser.BindRender | module/ModuleView.js:19-27 | binding a render callback fails exactly when the module has no view, and otherwise makes the key render into the element with that closure |
| Compiler.ModuleDirectiveParser.BindListener | module/Module.js:191-199 | binding an event fails on a module without control; with a control it succeeds exactly when the event name is not blank and the element and event are still free (module/ModuleControl.js:31-50), and then the element's event runs that closure; no other free pair is taken |
| Compiler.ModuleDirectiveParser.BindText | module/Module.js:180-182 | binding a state key to an element fails exactly when the module has no view, and otherwise makes the key render into the element as text |
| Compiler.ModuleDirectiveParser.HandleState | module/ModuleDirectiveParser.js:672-720 | a state directive makes the key render into the element and binds the event before the first pipe character to the tokenized handler chain; on a module with a view and a control it succeeds exactly when that event name is not blank and still free on the element |
| Compiler.ModuleDirectiveParser.HandleControl | module/ModuleDirectiveParser.js:475-488 | a control directive without a handler name is refused before anything is bound, and otherwise its event is bound to the colon-aware reading of its value; past that check, on a module with a control, it succeeds exactly when the event name is not blank and still free on the element |
| Compiler.ModuleDirectiveParser.HandleView | module/ModuleDirectiveParser.js:620-631 | a view directive fails exactly when the module has no view, and otherwise makes the key render through the named renderer |
| Compiler.ModuleDirectiveParser.Target | module/ModuleDirectiveParser.js:278 | the module's own member is used exactly when it is truthy, and the render proxy is asked only otherwise; Compiler.ModuleDirectiveParser.TextFallbackExactly states when that ends in the text fallback |
| Compiler.ModuleDirectiveParser.TextFallbackExactly | module/ModuleDirectiveParser.js:278 | the value is written as text exactly when neither the module's own truthy member, an assigned renderer, a member inherited by the render table (module/Module.js:40) nor a view member answers the name |
| Compiler.ModuleDirectiveParser.UncallableExactly | module/ModuleDirectiveParser.js:278-285 | `renderer.call` throws exactly when the renderer is a truthy own member that is not a function; or, with no truthy own member and no assigned renderer, it is `__proto__`, `__defineGetter__` or `__defineSetter__`, which the render table inherits (module/Module.js:40); or, not inherited either and on a module with a view, it is a view field (`state`, `renderMap`) or a view method that reads the view's own fields (module/ModuleView.js:7-119) |
| Compiler.ModuleDirectiveParser.ViewFieldsUncallable | module/ModuleDirectiveParser.js:278-285 | on a module with a view and no own member or renderer of those names, the names `renderMap`, `state` and `__proto__` all reach a value that cannot be called |
| Compiler.ModuleDirectiveParser.ViewCalls | module/ModuleDirectiveParser.js:240-244 | an item's view directives call, in order, each one's renderer with the whole item context and its element |
| Compiler.ModuleDirectiveParser.ItemViewStep | module/ModuleDirectiveParser.js:240-244 | handling one more view directive extends the tree and the calls by that directive's part |
| Compiler.ModuleDirectiveParser.HandleViewInItem | module/ModuleDirectiveParser.js:275-286 | a view directive in an item throws a TypeError exactly when the renderer found cannot be called on the module (`Compiler.ModuleDirectiveParser.Uncallable`), and otherwise calls the renderer once, the default one writing the context as text |
| Compiler.ModuleDirectiveParser.ViewOneInItem | module/ModuleDirectiveParser.js:275-286 | one view directive of an item throws exactly when its renderer cannot be called on the module, and otherwise makes one renderer call and leaves its attribute removed |
| Compiler.ModuleDirectiveParser.StatePass | module/ModuleDirectiveParser.js:31-34 | the state pass wires every state directive in order and removes its attribute; on a module with a view and a control it succeeds when the pairs it binds are not blank, free and distinct, and it takes no other pair |
| Compiler.ModuleDirectiveParser.StateStep | module/ModuleDirectiveParser.js:31-34 | one more state directive handled keeps the earlier ones wired, wires it and removes its attribute, and succeeds when its pair can be bound |
| Compiler.ModuleDirectiveParser.ControlPass | module/ModuleDirectiveParser.js:49-52 | the control pass wires every control directive, each one having a handler name at the top level, and removes its attribute; on a module with a control it succeeds when, in addition, the pairs it binds are not blank, free and distinct, and it takes no other pair |
| Compiler.ModuleDirectiveParser.ControlStep | module/ModuleDirectiveParser.js:49-52 | one more control directive handled keeps the earlier ones wired, wires it and removes its attribute, and succeeds when it has a handler name at the top level and its pair can be bound |
| Compiler.ModuleDirectiveParser.ViewPass | module/ModuleDirectiveParser.js:43-46 | the view pass fails exactly when there is a view directive and no view, and otherwise wires every view directive and removes its attribute |
| Compiler.ModuleDirectiveParser.ItemViewPass | module/ModuleDirectiveParser.js:240-244 | the view directives of an item succeed exactly when every one names a renderer that can be called on the module, and then make exactly the calls and text writes in order |
| Compiler.ModuleDirectiveParser.ProcessNested | module/ModuleDirectiveParser.js:236-263 | an item handles its view, conditional, control and state directives in that order, removing each attribute, and wires its controls and states with the item context |
| Compiler.ModuleDirectiveParser.NestedBindings | module/ModuleDirectiveParser.js:252-262 | the control and state directives of an item are wired with the item context and their attributes removed |
| Compiler.ModuleDirectiveParser.RenderItems | module/ModuleDirectiveParser.js:195-211 | each list item yields one clone |
| Compiler.ModuleDirectiveParser.HandleList | module/ModuleDirectiveParser.js:167-220 | a list directive on anything but a template inside a parent does nothing; otherwise the container is cleared, a state read that throws fails after clearing, and on success the container holds what clearing kept followed by one clone per list item, and the list re-renders on change |
| Compiler.ModuleDirectiveParser.ListPass | module/ModuleDirectiveParser.js:37-40 | the list pass only adds bindings and does nothing without list directives |
| Compiler.ModuleDirectiveParser.LatePasses | module/ModuleDirectiveParser.js:43-58 | the view, control and conditional passes wire their directives and leave the tree with those attributes removed and the displays set, or leave the tree as it was when they fail; on a module with a view and a control they succeed when every control directive has a handler name and its pairs can be bound |
| Compiler.ModuleDirectiveParser.ViewControlPasses | module/ModuleDirectiveParser.js:43-52 | the view pass and then the control pass wire their directives and remove their attributes |
| Compiler.ModuleDirectiveParser.EarlyPasses | module/ModuleDirectiveParser.js:30-40 | the state and list passes wire every state directive, failing on a module without a view; on a module with a view and a control, when `Compiler.Parsable` holds they succeed and leave the control pairs bindable |
| Compiler.ModuleDirectiveParser.Passes | module/ModuleDirectiveParser.js:30-58 | the five passes run in the order state, list, view, control, conditional, wire every state, view and control directive and, without list directives, leave the tree with every directive attribute removed and the displays set; when the directives are those collected from the tree, that tree yields no directive when collected again; on a module with a view and a control, when `Compiler.Parsable` holds the passes succeed |
| Compiler.ModuleDirectiveParser.Parse | module/ModuleDirectiveParser.js:23-59 | parsing stamps the data-keys, collects the directives of the stamped tree and wires every state, view and control directive, failing on a module without a view when there is a state directive; without list directives the tree it leaves is `Compiler.ParsedTree` of the stamped tree, from which collecting again finds no directive; on a module with a view and a control, parse succeeds when there is no list directive, every control directive has a handler name, and the event pairs of the state and control directives are not blank, not yet bound and distinct |

## Left out

- The real DOM and browser APIs are not modelled: `importNode`, `DocumentFragment`, `style`, `textContent`, shadow roots, `instanceof HTMLElement` and `HTMLTemplateElement`. The element tree stands in for them, with numeric ids, a template tag and a display field.
- `Module`'s HTMLElement base is left out, along with `#assemble`, `adoptedCallback`, `attributeChangedCallback`, the `moduleReady` event and the `data-key` set on the host element. Each is markup assembly or a browser callback with no logic of its own.
- `connectedCallback` also copies `view.renderItem` onto the module (module/Module.js:94). The parser's map of the module's own members is a parameter and is not tied to that copy. When the map has no `renderItem`, the name reaches the view through the render table, which holds the same function; only the recorded call target differs.
- `Compiler.ModuleDirectiveParser.UncallableExactly`: the view methods that read `renderMap` or call `registerRender` are taken to throw when called on the module, which has neither member of its own. A subclass that defines such members is not modelled.
- The DOM parts of `ModuleManager` are left out: `createModuleElement`'s element creation, `attachModule`, `attachChildren`, `detachModule`, `detachAllModule` and `handleModuleReady`. Only the prop split of `createModuleElement` is modelled, as `Manager.ModuleManager.SplitProps`.
- `ModuleManager`'s global event bus (`onGlobalEvent`, `dispatchGlobalEvent`) is left out. It only forwards to an EventTarget and has no logic of its own.
- JavaScript Proxy and EventTarget/CustomEvent mechanics are modelled as explicit methods and maps. Reflect semantics beyond the traps the engine defines are not modelled.
- The promise continuation of the `@` operator is left out, as is `then` on a thenable result inside a list item. Firing records the pending dispatch as an effect; nothing resolves it, because there is no concurrency in the model.
- Handlers, renderers and listeners are pure functions from (value, context) to value. Their own side effects on the module are not modelled.
- The DOM effects of a renderer the module or the manager supplies are not modelled. The call is recorded; only the default renderer's text write is applied to the tree.
- Console logging and warnings are left out; the paths that only log return without a change.
- Random module names (`Module.js:228-231`) and `Date.now()` item ids are left out. Ids are parameters of the operations that need them.
- Numbers are integers. Floating point, `NaN` and `-0` are not modelled, and neither are reads of string indices or of built-in prototype members.
- The own properties of functions and promises are not modelled as assignment targets, neither in `resetState` nor through `ReactiveStore.ModuleState.SetNested`, which states only what is notified and that the store is unchanged.
- `ReactiveStore.ArraySet`: the named properties of an array are not stored. A key that is no array index ("foo", "01", "-1", "1.5", "4294967295") is accepted and notified as the program does, but the array keeps only its elements, so reading that key later yields undefined where the program yields the value.
- `ResetState.HasProperty` and `ResetState.SelectKeys`: membership is decided by the keys the model gives a value, without a prototype chain. For JavaScript `key in props` also holds for inherited members such as `toString` or `constructor`, so resetState would select such a key and copy the inherited function into the dataset; the model does not select it.
- Three parts of the registration form are left out: `togglePassword`, `toggleSubmitButton` and the `registrationAttempt` listener. The first two only flip DOM properties of the shadow tree. The listener sets the email, username and password keys to the empty string, which is three `ReactiveStore.ModuleState.SetState` calls.
- `Compiler.ModuleDirectiveParser.HandleList`: the contract does not carry the bindings each clone's nested directives make. Those are stated per clone by `ProcessNested`.
- `Compiler.ModuleDirectiveParser.HandleList`: the freshness of clone ids is proved about `DomTree.Renumber`, but it is not carried through the list contract.
- `Compiler.ModuleDirectiveParser.HandleList`: a template detached by an earlier list render in the same parse is skipped, as the missing parent makes it.
- `Compiler.ModuleDirectiveParser.ListPass`: the contract states only that bindings are kept and that an empty pass changes nothing. Each render's result is stated by `HandleList`.
- `Compiler.ModuleDirectiveParser.RenderItems`: the contract states the number of clones, not their content.
- `Compiler.ModuleDirectiveParser.Parse`, `Compiler.ModuleDirectiveParser.Passes` and `Compiler.ModuleDirectiveParser.EarlyPasses`: the resulting tree is stated only when there is no list directive. In every case the wiring of states, views and controls is stated.
- `HandlerChains.FireControl`: the contract bounds the calls and effects. The full result is stated for the dispatch case by `FireDispatch` and `DispatchScenario`, and for the error cases by `UnknownOperatorThrows` and `AsyncRequired`.
- `HandlerChains.ApplyOperator`: no ensures states the effect of the `<` operator, which binds the new event named in the details. The star operator's effect is stated by `Broadcast`, and the dispatch operator's by `ApplyDispatch`.
- `HandlerChains.FireControlWithContext`: the contract bounds the calls and effects and says which operators act; the dispatched detail is not stated in a contract.
- `JsStrings.ToLowerChar`, `JsStrings.ToLower`, `RegistrationForm.SanitizeEmail` and `RegistrationForm.ValidateEmail` use ASCII case mapping only. `toLowerCase` maps the whole of Unicode: U+212A (the Kelvin sign) becomes `k`, and U+0130 becomes two code units, so for such input the program's sanitized email differs, and can be longer than the input.
- `ReactiveStore.ArrayLength`: a decimal string whose value is not a whole number but rounds to one as a double (such as `"5.00000000000000001"`) is refused, where `Number` would round it and accept it. An object's own `valueOf` or `toString` is not consulted either.
- `ResetState.KeyList`: an entry of `keys` that is itself an array is refused with a TypeError. The program accepts it, because an array has an `includes` method and is converted to a property key by its string form.
- `ReactiveStore.ModuleState.Create`, `ReactiveStore.IndexEntries` and `ReactiveStore.ModuleState.SetState`: an array given as the initial state is stored as an object of its index entries. The program keeps it as an array, so at the root a write to an index notifies with the whole array, a write to `length` truncates it, and a read of `length` yields its length. That array branch is modelled for nested arrays only (`ReactiveStore.ModuleState.SetNested`).
- `RegistrationForm.AddItem`: whether the context's list is the store's own array is decided by comparing values, since the model has no object identity; a context made by spreading `getState()` always holds the store's arrays. A push onto a list of 2^32 − 1 items is modelled as throwing before any write, where the program first stores the item as a plain property and notifies its listeners.
- `Compiler.ModuleDirectiveParser.constructor`: distinct element ids below the first clone id are required at the start, but `Valid()` does not carry them through the passes. The list passes number their clones from the next free id, and `DomTree.RenumberFresh` proves those ids fresh; the uniqueness of the whole tree after a pass is not proved.
- `ResetState.WriteAt` and `ResetState.ResetModuleState`: values are trees, so a dotted reset changes `props` at the path written and nowhere else. In the program an object reached through `props` may also be reachable from elsewhere, such as another path in `props` or the module's state, and the write shows there too.
