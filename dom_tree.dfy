/** The element tree the directive compiler walks, and the pure parts of the compiler
    over it: directive collection, data-key stamping, attribute stripping, the order
    in which families are handled, conditional display and the list render. */
module DomTree {
  import opened Wrappers
  import opened JsStrings
  import opened JsValues

  /** `style.display`: never set, set to `''` (shown) or set to `'none'` (hidden). */
  datatype Display = Unset | Shown | Hidden

  datatype Attr = Attr(name: string, value: string)

  /** Element nodes carry an identity; a `template` element keeps its content apart from
      its children, as `HTMLTemplateElement.content`. */
  datatype Node =
    | Element(id: nat, tag: string, attrs: seq<Attr>, display: Display, children: seq<Node>, content: seq<Node>)
    | Fragment(children: seq<Node>)
    | Text(data: string)

  /** The directive prefixes, in the order the compiler tries them. */
  const Prefixes: seq<string> := ["c-", "v-", "s-", "f-", "l-", "f-"]

  predicate IsFamily(c: char) {
    c == 'c' || c == 'v' || c == 's' || c == 'f' || c == 'l'
  }

  /** `{type, element, name, value}`. */
  datatype Directive = Directive(family: char, element: nat, name: string, value: string)

  /** The first prefix the attribute name starts with. */
  function MatchPrefix(name: string): (r: Option<string>)
    ensures r.Some? ==> |r.value| == 2 && r.value[1] == '-' && IsFamily(r.value[0]) && StartsWith(name, r.value)
    ensures r.None? <==> !(|name| >= 2 && name[1] == '-' && IsFamily(name[0]))
  {
    if |name| >= 2 && name[1] == '-' && IsFamily(name[0]) then Some(name[..2]) else None
  }

  /** A directive attribute: its name starts with one of the prefixes. */
  predicate IsDirectiveAttr(a: Attr) {
    MatchPrefix(a.name).Some?
  }

  function DirectiveOf(id: nat, a: Attr): Directive
    requires IsDirectiveAttr(a)
  {
    var p := MatchPrefix(a.name).value;
    Directive(p[0], id, a.name[|p|..], a.value)
  }

  /** removeDirective is called with `${type}-${name}`, which is exactly the name of
      the attribute the directive was collected from. */
  lemma DirectiveNameRebuilt(id: nat, a: Attr)
    requires IsDirectiveAttr(a)
    ensures var d := DirectiveOf(id, a); [d.family] + "-" + d.name == a.name
  {
    var d := DirectiveOf(id, a);
    assert a.name == a.name[..2] + a.name[2..];
  }

  function AttrDirectives(id: nat, attrs: seq<Attr>): (ds: seq<Directive>)
    ensures |ds| <= |attrs|
    ensures forall k :: 0 <= k < |ds| ==> ds[k].element == id && IsFamily(ds[k].family)
  {
    if attrs == [] then []
    else (if IsDirectiveAttr(attrs[0]) then [DirectiveOf(id, attrs[0])] else []) + AttrDirectives(id, attrs[1..])
  }

  /** collectAllDirectives: pre-order, an element's own attributes before its children;
      a fragment contributes its children's; text contributes nothing; a template's
      content is not visited. */
  function Collect(n: Node): seq<Directive>
    decreases n, 1
  {
    match n
    case Element(id, _, attrs, _, children, _) => AttrDirectives(id, attrs) + CollectAll(children)
    case Fragment(children) => CollectAll(children)
    case Text(_) => []
  }

  function CollectAll(ns: seq<Node>): seq<Directive>
    decreases ns, 0
  {
    if ns == [] then [] else Collect(ns[0]) + CollectAll(ns[1..])
  }

  /** The ids of the element nodes of a tree, in pre-order. */
  function Ids(n: Node): seq<nat>
    decreases n, 1
  {
    match n
    case Element(id, _, _, _, children, _) => [id] + IdsAll(children)
    case Fragment(children) => IdsAll(children)
    case Text(_) => []
  }

  function IdsAll(ns: seq<Node>): seq<nat>
    decreases ns, 0
  {
    if ns == [] then [] else Ids(ns[0]) + IdsAll(ns[1..])
  }

  /** Each element of the tree has its own id, and every id is below `next`: the ids
      stand for the identities of distinct DOM elements, and `next` is the first id
      left for clones. */
  predicate FreshBelow(n: Node, next: nat) {
    (forall i, j :: 0 <= i < j < |Ids(n)| ==> Ids(n)[i] != Ids(n)[j])
    && forall i :: 0 <= i < |Ids(n)| ==> Ids(n)[i] < next
  }

  /** Every collected directive has a family and belongs to an element of the tree. */
  lemma {:induction false} CollectWellFormed(n: Node)
    ensures forall k :: 0 <= k < |Collect(n)| ==>
      IsFamily(Collect(n)[k].family) && Collect(n)[k].element in Ids(n)
    decreases n, 1
  {
    match n
    case Element(id, _, attrs, _, children, _) =>
      CollectAllWellFormed(children);
    case Fragment(children) =>
      CollectAllWellFormed(children);
    case Text(_) =>
  }

  lemma {:induction false} CollectAllWellFormed(ns: seq<Node>)
    ensures forall k :: 0 <= k < |CollectAll(ns)| ==>
      IsFamily(CollectAll(ns)[k].family) && CollectAll(ns)[k].element in IdsAll(ns)
    decreases ns, 0
  {
    if ns != [] {
      CollectWellFormed(ns[0]);
      CollectAllWellFormed(ns[1..]);
    }
  }

  // ---------------------------------------------------------------------------
  // Attribute edits

  /** The value of the first attribute of that name. */
  function GetAttr(attrs: seq<Attr>, name: string): (r: Option<string>)
    ensures r.Some? <==> exists k :: 0 <= k < |attrs| && attrs[k].name == name
  {
    if attrs == [] then None
    else if attrs[0].name == name then Some(attrs[0].value)
    else GetAttr(attrs[1..], name)
  }

  /** setAttribute: replaces the value of the first attribute of that name, or appends
      a new attribute. */
  function SetAttr(attrs: seq<Attr>, name: string, value: string): (r: seq<Attr>)
    ensures GetAttr(r, name) == Some(value)
    ensures forall other :: other != name ==> GetAttr(r, other) == GetAttr(attrs, other)
  {
    if attrs == [] then [Attr(name, value)]
    else if attrs[0].name == name then [Attr(name, value)] + attrs[1..]
    else [attrs[0]] + SetAttr(attrs[1..], name, value)
  }

  /** removeAttribute, for every attribute of that name. */
  function RemoveAttr(attrs: seq<Attr>, name: string): (r: seq<Attr>)
    ensures forall k :: 0 <= k < |r| ==> r[k].name != name && r[k] in attrs
    ensures forall k :: 0 <= k < |attrs| && attrs[k].name != name ==> attrs[k] in r
  {
    if attrs == [] then []
    else (if attrs[0].name == name then [] else [attrs[0]]) + RemoveAttr(attrs[1..], name)
  }

  /** The attributes left once every directive attribute is removed. */
  function StripAttrs(attrs: seq<Attr>): (r: seq<Attr>)
    ensures forall k :: 0 <= k < |r| ==> !IsDirectiveAttr(r[k]) && r[k] in attrs
    ensures forall k :: 0 <= k < |attrs| && !IsDirectiveAttr(attrs[k]) ==> attrs[k] in r
  {
    if attrs == [] then []
    else (if IsDirectiveAttr(attrs[0]) then [] else [attrs[0]]) + StripAttrs(attrs[1..])
  }

  lemma {:induction false} NoDirectivesAnyId(id: nat, attrs: seq<Attr>)
    requires forall k :: 0 <= k < |attrs| ==> !IsDirectiveAttr(attrs[k])
    ensures AttrDirectives(id, attrs) == []
  {
    if attrs != [] { NoDirectivesAnyId(id, attrs[1..]); }
  }

  /** The tree once every collected directive attribute has been removed, as a full
      parse leaves it. */
  function Strip(n: Node): Node
    decreases n, 1
  {
    match n
    case Element(id, tag, attrs, display, children, content) =>
      Element(id, tag, StripAttrs(attrs), display, StripAll(children), content)
    case Fragment(children) => Fragment(StripAll(children))
    case Text(_) => n
  }

  function StripAll(ns: seq<Node>): (r: seq<Node>)
    ensures |r| == |ns|
    decreases ns, 0
  {
    if ns == [] then [] else [Strip(ns[0])] + StripAll(ns[1..])
  }

  /** A stripped tree yields no directive: parsing it again binds nothing. */
  lemma {:induction false} StripCollectsNothing(n: Node)
    ensures Collect(Strip(n)) == []
    decreases n, 1
  {
    match n
    case Element(id, tag, attrs, display, children, content) =>
      NoDirectivesAnyId(id, StripAttrs(attrs));
      StripAllCollectsNothing(children);
    case Fragment(children) =>
      StripAllCollectsNothing(children);
    case Text(_) =>
  }

  lemma {:induction false} StripAllCollectsNothing(ns: seq<Node>)
    ensures CollectAll(StripAll(ns)) == []
    decreases ns, 0
  {
    if ns != [] {
      StripCollectsNothing(ns[0]);
      StripAllCollectsNothing(ns[1..]);
      assert StripAll(ns)[1..] == StripAll(ns[1..]);
    }
  }

  /** Stripping keeps the element structure: the same ids in the same order. */
  lemma {:induction false} StripKeepsIds(n: Node)
    ensures Ids(Strip(n)) == Ids(n)
    decreases n, 1
  {
    match n
    case Element(id, tag, attrs, display, children, content) => StripAllKeepsIds(children);
    case Fragment(children) => StripAllKeepsIds(children);
    case Text(_) =>
  }

  lemma {:induction false} StripAllKeepsIds(ns: seq<Node>)
    ensures IdsAll(StripAll(ns)) == IdsAll(ns)
    decreases ns, 0
  {
    if ns != [] {
      StripKeepsIds(ns[0]);
      StripAllKeepsIds(ns[1..]);
      assert StripAll(ns)[1..] == StripAll(ns[1..]);
    }
  }

  /** removeDirective on the element with that id: `hasAttribute` then `removeAttribute`. */
  function RemoveDirective(n: Node, element: nat, attrName: string): Node
    decreases n, 1
  {
    match n
    case Element(id, tag, attrs, display, children, content) =>
      Element(id, tag, if id == element then RemoveAttr(attrs, attrName) else attrs, display,
              RemoveDirectiveAll(children, element, attrName), content)
    case Fragment(children) => Fragment(RemoveDirectiveAll(children, element, attrName))
    case Text(_) => n
  }

  function RemoveDirectiveAll(ns: seq<Node>, element: nat, attrName: string): (r: seq<Node>)
    ensures |r| == |ns|
    decreases ns, 0
  {
    if ns == [] then [] else [RemoveDirective(ns[0], element, attrName)] + RemoveDirectiveAll(ns[1..], element, attrName)
  }

  /** `element.style.display = ...` on the element with that id. */
  function SetDisplay(n: Node, element: nat, d: Display): Node
    decreases n, 1
  {
    match n
    case Element(id, tag, attrs, display, children, content) =>
      Element(id, tag, attrs, if id == element then d else display, SetDisplayAll(children, element, d), content)
    case Fragment(children) => Fragment(SetDisplayAll(children, element, d))
    case Text(_) => n
  }

  function SetDisplayAll(ns: seq<Node>, element: nat, d: Display): (r: seq<Node>)
    ensures |r| == |ns|
    decreases ns, 0
  {
    if ns == [] then [] else [SetDisplay(ns[0], element, d)] + SetDisplayAll(ns[1..], element, d)
  }

  /** The attribute name a directive was collected from, which removeDirective is given. */
  function AttrNameOf(d: Directive): string {
    [d.family] + "-" + d.name
  }

  /** Removing an attribute name takes away the directives collected from it and adds none. */
  lemma {:induction false} AttrDirectivesRemoved(id: nat, attrs: seq<Attr>, attrName: string)
    ensures forall x :: x in AttrDirectives(id, RemoveAttr(attrs, attrName)) ==>
      x in AttrDirectives(id, attrs) && AttrNameOf(x) != attrName
  {
    if attrs != [] {
      AttrDirectivesRemoved(id, attrs[1..], attrName);
      var rest := RemoveAttr(attrs[1..], attrName);
      if attrs[0].name == attrName {
        assert RemoveAttr(attrs, attrName) == rest;
      } else {
        var r := [attrs[0]] + rest;
        assert RemoveAttr(attrs, attrName) == r;
        assert r[0] == attrs[0] && r[1..] == rest;
        if IsDirectiveAttr(attrs[0]) {
          DirectiveNameRebuilt(id, attrs[0]);
        }
      }
    }
  }

  /** After removeDirective(element, attrName) every directive collected was collected
      before, and none of them is the removed attribute of that element. */
  lemma {:induction false} RemoveDirectiveCollect(n: Node, element: nat, attrName: string)
    ensures forall x :: x in Collect(RemoveDirective(n, element, attrName)) ==>
      x in Collect(n) && !(x.element == element && AttrNameOf(x) == attrName)
    decreases n, 1
  {
    match n
    case Element(id, tag, attrs, display, children, content) =>
      RemoveDirectiveAllCollect(children, element, attrName);
      if id == element {
        AttrDirectivesRemoved(id, attrs, attrName);
      }
    case Fragment(children) =>
      RemoveDirectiveAllCollect(children, element, attrName);
    case Text(_) =>
  }

  lemma {:induction false} RemoveDirectiveAllCollect(ns: seq<Node>, element: nat, attrName: string)
    ensures forall x :: x in CollectAll(RemoveDirectiveAll(ns, element, attrName)) ==>
      x in CollectAll(ns) && !(x.element == element && AttrNameOf(x) == attrName)
    decreases ns, 0
  {
    if ns != [] {
      var r := RemoveDirectiveAll(ns, element, attrName);
      RemoveDirectiveCollect(ns[0], element, attrName);
      RemoveDirectiveAllCollect(ns[1..], element, attrName);
      assert r[0] == RemoveDirective(ns[0], element, attrName);
      assert r[1..] == RemoveDirectiveAll(ns[1..], element, attrName);
    }
  }

  /** Setting a display changes no attribute, so the same directives are collected. */
  lemma {:induction false} SetDisplayCollect(n: Node, element: nat, d: Display)
    ensures Collect(SetDisplay(n, element, d)) == Collect(n)
    decreases n, 1
  {
    match n
    case Element(id, tag, attrs, display, children, content) =>
      SetDisplayAllCollect(children, element, d);
    case Fragment(children) =>
      SetDisplayAllCollect(children, element, d);
    case Text(_) =>
  }

  lemma {:induction false} SetDisplayAllCollect(ns: seq<Node>, element: nat, d: Display)
    ensures CollectAll(SetDisplayAll(ns, element, d)) == CollectAll(ns)
    decreases ns, 0
  {
    if ns != [] {
      var r := SetDisplayAll(ns, element, d);
      SetDisplayCollect(ns[0], element, d);
      SetDisplayAllCollect(ns[1..], element, d);
      assert r[0] == SetDisplay(ns[0], element, d);
      assert r[1..] == SetDisplayAll(ns[1..], element, d);
    }
  }

  /** The display of the first element with that id, if there is one. */
  function DisplayOf(n: Node, element: nat): Option<Display>
    decreases n, 1
  {
    match n
    case Element(id, _, _, display, children, _) => if id == element then Some(display) else DisplayOfAll(children, element)
    case Fragment(children) => DisplayOfAll(children, element)
    case Text(_) => None
  }

  function DisplayOfAll(ns: seq<Node>, element: nat): Option<Display>
    decreases ns, 0
  {
    if ns == [] then None
    else var first := DisplayOf(ns[0], element); if first.Some? then first else DisplayOfAll(ns[1..], element)
  }

  /** After setting the display of an element of the tree, that is its display. */
  lemma {:induction false} SetDisplayThenRead(n: Node, element: nat, d: Display)
    requires element in Ids(n)
    ensures DisplayOf(SetDisplay(n, element, d), element) == Some(d)
    decreases n, 1
  {
    match n
    case Element(id, tag, attrs, display, children, content) =>
      if id != element { SetDisplayAllThenRead(children, element, d); }
    case Fragment(children) => SetDisplayAllThenRead(children, element, d);
    case Text(_) =>
  }

  lemma {:induction false} SetDisplayAllThenRead(ns: seq<Node>, element: nat, d: Display)
    requires element in IdsAll(ns)
    ensures DisplayOfAll(SetDisplayAll(ns, element, d), element) == Some(d)
    decreases ns, 0
  {
    var r := SetDisplayAll(ns, element, d);
    assert r[0] == SetDisplay(ns[0], element, d) && r[1..] == SetDisplayAll(ns[1..], element, d);
    if element in Ids(ns[0]) {
      SetDisplayThenRead(ns[0], element, d);
    } else {
      SetDisplayAllThenRead(ns[1..], element, d);
      SetDisplayMissing(ns[0], element, d);
    }
  }

  /** Reading the display of an element the tree does not hold finds nothing, before
      and after setting it. */
  lemma {:induction false} SetDisplayMissing(n: Node, element: nat, d: Display)
    requires element !in Ids(n)
    ensures DisplayOf(SetDisplay(n, element, d), element) == None
    decreases n, 1
  {
    match n
    case Element(id, tag, attrs, display, children, content) => SetDisplayAllMissing(children, element, d);
    case Fragment(children) => SetDisplayAllMissing(children, element, d);
    case Text(_) =>
  }

  lemma {:induction false} SetDisplayAllMissing(ns: seq<Node>, element: nat, d: Display)
    requires element !in IdsAll(ns)
    ensures DisplayOfAll(SetDisplayAll(ns, element, d), element) == None
    decreases ns, 0
  {
    if ns != [] {
      var r := SetDisplayAll(ns, element, d);
      assert r[0] == SetDisplay(ns[0], element, d) && r[1..] == SetDisplayAll(ns[1..], element, d);
      SetDisplayMissing(ns[0], element, d);
      SetDisplayAllMissing(ns[1..], element, d);
    }
  }

  // ---------------------------------------------------------------------------
  // ensureDataKeys

  /** An element whose `data-key` is missing or empty. */
  predicate Unkeyed(attrs: seq<Attr>) {
    GetAttr(attrs, "data-key").None? || GetAttr(attrs, "data-key") == Some("")
  }

  /** The key stamped on the element visited with counter value `c`. */
  function DataKey(moduleName: string, c: nat): string {
    "module-" + moduleName + "-" + NatToString(c)
  }

  /** ensureDataKeys from an element: elements are visited in pre-order through their
      children, each unkeyed one takes the next counter value. The walk starts only at
      an element: given a fragment (such as a shadow root) it stamps nothing. */
  function StampKeys(n: Node, moduleName: string, c: nat): (r: (Node, nat))
    ensures r.1 >= c
    decreases n, 1
  {
    match n
    case Element(id, tag, attrs, display, children, content) =>
      var attrs' := if Unkeyed(attrs) then SetAttr(attrs, "data-key", DataKey(moduleName, c)) else attrs;
      var c' := if Unkeyed(attrs) then c + 1 else c;
      var rest := StampKeysAll(children, moduleName, c');
      (Element(id, tag, attrs', display, rest.0, content), rest.1)
    case _ => (n, c)
  }

  function StampKeysAll(ns: seq<Node>, moduleName: string, c: nat): (r: (seq<Node>, nat))
    ensures |r.0| == |ns| && r.1 >= c
    decreases ns, 0
  {
    if ns == [] then ([], c)
    else
      var first := StampKeys(ns[0], moduleName, c);
      var rest := StampKeysAll(ns[1..], moduleName, first.1);
      ([first.0] + rest.0, rest.1)
  }

  function EnsureDataKeys(root: Node, moduleName: string): Node {
    StampKeys(root, moduleName, 0).0
  }

  /** Every element reachable from an element through children has a non-empty data-key. */
  predicate AllKeyed(n: Node)
    decreases n, 1
  {
    match n
    case Element(_, _, attrs, _, children, _) => !Unkeyed(attrs) && AllKeyedAll(children)
    case _ => true
  }

  predicate AllKeyedAll(ns: seq<Node>)
    decreases ns, 0
  {
    forall k :: 0 <= k < |ns| ==> AllKeyed(ns[k])
  }

  /** After ensureDataKeys from an element, every element below it is keyed, and a key
      that was already there is kept. */
  lemma {:induction false} StampKeysKeys(n: Node, moduleName: string, c: nat)
    ensures AllKeyed(StampKeys(n, moduleName, c).0)
    ensures n.Element? && !Unkeyed(n.attrs) ==>
      GetAttr(StampKeys(n, moduleName, c).0.attrs, "data-key") == GetAttr(n.attrs, "data-key")
    decreases n, 1
  {
    match n
    case Element(id, tag, attrs, display, children, content) =>
      var c' := if Unkeyed(attrs) then c + 1 else c;
      StampKeysAllKeys(children, moduleName, c');
      if Unkeyed(attrs) {
        assert DataKey(moduleName, c) != "";
      }
    case _ =>
  }

  lemma {:induction false} StampKeysAllKeys(ns: seq<Node>, moduleName: string, c: nat)
    ensures AllKeyedAll(StampKeysAll(ns, moduleName, c).0)
    decreases ns, 0
  {
    if ns != [] {
      var first := StampKeys(ns[0], moduleName, c);
      StampKeysKeys(ns[0], moduleName, c);
      StampKeysAllKeys(ns[1..], moduleName, first.1);
      var r := StampKeysAll(ns, moduleName, c);
      assert r.0 == [first.0] + StampKeysAll(ns[1..], moduleName, first.1).0;
      forall k | 0 <= k < |r.0| ensures AllKeyed(r.0[k]) {
        if k > 0 { assert r.0[k] == StampKeysAll(ns[1..], moduleName, first.1).0[k - 1]; }
      }
    }
  }

  /** The shadow root the compiler starts from is a fragment: nothing is stamped. */
  lemma FragmentRootUnstamped(children: seq<Node>, moduleName: string)
    ensures EnsureDataKeys(Fragment(children), moduleName) == Fragment(children)
  {
  }

  /** Stamping adds only `data-key` attributes, so the directives are unchanged. */
  lemma {:induction false} StampKeysKeepsDirectives(n: Node, moduleName: string, c: nat)
    ensures Collect(StampKeys(n, moduleName, c).0) == Collect(n)
    decreases n, 1
  {
    match n
    case Element(id, tag, attrs, display, children, content) =>
      var c' := if Unkeyed(attrs) then c + 1 else c;
      StampKeysAllKeepsDirectives(children, moduleName, c');
      if Unkeyed(attrs) {
        SetAttrKeepsDirectives(id, attrs, "data-key", DataKey(moduleName, c));
      }
    case _ =>
  }

  lemma {:induction false} StampKeysAllKeepsDirectives(ns: seq<Node>, moduleName: string, c: nat)
    ensures CollectAll(StampKeysAll(ns, moduleName, c).0) == CollectAll(ns)
    decreases ns, 0
  {
    if ns != [] {
      var first := StampKeys(ns[0], moduleName, c);
      StampKeysKeepsDirectives(ns[0], moduleName, c);
      StampKeysAllKeepsDirectives(ns[1..], moduleName, first.1);
      var r := StampKeysAll(ns, moduleName, c);
      assert r.0[0] == first.0 && r.0[1..] == StampKeysAll(ns[1..], moduleName, first.1).0;
    }
  }

  lemma {:induction false} SetAttrKeepsDirectives(id: nat, attrs: seq<Attr>, name: string, value: string)
    requires MatchPrefix(name).None?
    ensures AttrDirectives(id, SetAttr(attrs, name, value)) == AttrDirectives(id, attrs)
  {
    if attrs != [] && attrs[0].name != name {
      SetAttrKeepsDirectives(id, attrs[1..], name, value);
      assert SetAttr(attrs, name, value)[1..] == SetAttr(attrs[1..], name, value);
    } else if attrs != [] {
      assert SetAttr(attrs, name, value)[1..] == attrs[1..];
    }
  }

  // ---------------------------------------------------------------------------
  // Family order

  function OfFamily(ds: seq<Directive>, f: char): (r: seq<Directive>)
    ensures |r| <= |ds|
    ensures forall k :: 0 <= k < |r| ==> r[k].family == f
  {
    if ds == [] then [] else (if ds[0].family == f then [ds[0]] else []) + OfFamily(ds[1..], f)
  }

  /** The directives of family `f` are exactly the members of `ds` of that family. */
  lemma {:induction false} OfFamilyMembers(ds: seq<Directive>, f: char)
    ensures forall d :: d in OfFamily(ds, f) <==> d in ds && d.family == f
  {
    if ds != [] {
      OfFamilyMembers(ds[1..], f);
      assert ds == [ds[0]] + ds[1..];
    }
  }

  /** The order parse handles the directives of a tree in: every state directive, then
      list, view, control and conditional ones, each family in collection order. */
  function ParseOrder(ds: seq<Directive>): seq<Directive> {
    OfFamily(ds, 's') + OfFamily(ds, 'l') + OfFamily(ds, 'v') + OfFamily(ds, 'c') + OfFamily(ds, 'f')
  }

  /** The order processNestedDirectives handles the directives of a cloned item in: view,
      conditional, control, state; list directives are not processed. */
  function NestedOrder(ds: seq<Directive>): seq<Directive> {
    OfFamily(ds, 'v') + OfFamily(ds, 'f') + OfFamily(ds, 'c') + OfFamily(ds, 's')
  }

  lemma OfFamilyStep(ds: seq<Directive>, f: char)
    requires ds != []
    ensures ds[0].family == f ==> multiset(OfFamily(ds, f)) == multiset(OfFamily(ds[1..], f)) + multiset{ds[0]}
    ensures ds[0].family != f ==> OfFamily(ds, f) == OfFamily(ds[1..], f)
  {
    if ds[0].family == f {
      assert OfFamily(ds, f) == [ds[0]] + OfFamily(ds[1..], f);
    }
  }

  lemma {:induction false} FamiliesPartition(ds: seq<Directive>)
    requires forall k :: 0 <= k < |ds| ==> IsFamily(ds[k].family)
    ensures multiset(ParseOrder(ds)) == multiset(ds)
    ensures multiset(NestedOrder(ds)) + multiset(OfFamily(ds, 'l')) == multiset(ds)
  {
    FamilySum(ds);
  }

  /** Adding `x` to one of five multisets adds it to their sum. */
  lemma SumShift<T>(a: multiset<T>, b: multiset<T>, c: multiset<T>, d: multiset<T>, e: multiset<T>, x: multiset<T>, i: nat)
    requires i < 5
    ensures var a', b', c', d', e' := (if i == 0 then a + x else a), (if i == 1 then b + x else b),
              (if i == 2 then c + x else c), (if i == 3 then d + x else d), (if i == 4 then e + x else e);
      a' + b' + c' + d' + e' == a + b + c + d + e + x
  {
  }

  /** The directives of the five families, counted together. */
  ghost function FamilyBag(ds: seq<Directive>): multiset<Directive> {
    multiset(OfFamily(ds, 's')) + multiset(OfFamily(ds, 'l')) + multiset(OfFamily(ds, 'v'))
      + multiset(OfFamily(ds, 'c')) + multiset(OfFamily(ds, 'f'))
  }

  /** The first directive lands in exactly one family. */
  lemma FamilyBagStep(ds: seq<Directive>)
    requires ds != [] && IsFamily(ds[0].family)
    ensures FamilyBag(ds) == FamilyBag(ds[1..]) + multiset{ds[0]}
  {
    var rest := ds[1..];
    var ms, ml, mv, mc, mf := multiset(OfFamily(rest, 's')), multiset(OfFamily(rest, 'l')),
      multiset(OfFamily(rest, 'v')), multiset(OfFamily(rest, 'c')), multiset(OfFamily(rest, 'f'));
    OfFamilyStep(ds, 's');
    OfFamilyStep(ds, 'l');
    OfFamilyStep(ds, 'v');
    OfFamilyStep(ds, 'c');
    OfFamilyStep(ds, 'f');
    var one := multiset{ds[0]};
    if ds[0].family == 's' {
      SumShift(ms, ml, mv, mc, mf, one, 0);
    } else if ds[0].family == 'l' {
      SumShift(ms, ml, mv, mc, mf, one, 1);
    } else if ds[0].family == 'v' {
      SumShift(ms, ml, mv, mc, mf, one, 2);
    } else if ds[0].family == 'c' {
      SumShift(ms, ml, mv, mc, mf, one, 3);
    } else {
      SumShift(ms, ml, mv, mc, mf, one, 4);
    }
  }

  /** A non-empty sequence counts its head once more than its tail. */
  lemma MultisetCons<T>(s: seq<T>)
    requires s != []
    ensures multiset(s) == multiset(s[1..]) + multiset{s[0]}
  {
    assert s == [s[0]] + s[1..];
  }

  lemma {:induction false} FamilyBagAll(ds: seq<Directive>)
    requires forall k :: 0 <= k < |ds| ==> IsFamily(ds[k].family)
    ensures FamilyBag(ds) == multiset(ds)
  {
    if ds != [] {
      FamilyBagAll(ds[1..]);
      FamilyBagStep(ds);
      MultisetCons(ds);
    }
  }

  /** The five families together hold every directive. */
  lemma FamilySum(ds: seq<Directive>)
    requires forall k :: 0 <= k < |ds| ==> IsFamily(ds[k].family)
    ensures multiset(OfFamily(ds, 's')) + multiset(OfFamily(ds, 'l')) + multiset(OfFamily(ds, 'v'))
      + multiset(OfFamily(ds, 'c')) + multiset(OfFamily(ds, 'f')) == multiset(ds)
  {
    FamilyBagAll(ds);
  }

  /** Each directive of a parsed tree is handled exactly once. */
  lemma ParseHandlesEach(n: Node)
    ensures multiset(ParseOrder(Collect(n))) == multiset(Collect(n))
  {
    CollectWellFormed(n);
    FamiliesPartition(Collect(n));
  }

  // ---------------------------------------------------------------------------
  // Conditional directives

  /** The reduce of getValueFromContext: each step reads the next key from a truthy
      object, and anything else yields undefined. */
  function FollowPath(v: Value, keys: seq<string>): Value
    decreases |keys|
  {
    if keys == [] then v
    else FollowPath(if Truthy(v) && IsObjectLike(v) then GetProp(v, keys[0]) else Undefined, keys[1..])
  }

  /** Once the walk reaches undefined it stays there. */
  lemma {:induction false} FollowPathUndefined(keys: seq<string>)
    ensures FollowPath(Undefined, keys) == Undefined
    decreases |keys|
  {
    if keys != [] { FollowPathUndefined(keys[1..]); }
  }

  /** Following `p` then `q` is following the concatenated path. */
  lemma {:induction false} FollowPathAppend(v: Value, p: seq<string>, q: seq<string>)
    ensures FollowPath(v, p + q) == FollowPath(FollowPath(v, p), q)
    decreases |p|
  {
    if p != [] {
      var next := if Truthy(v) && IsObjectLike(v) then GetProp(v, p[0]) else Undefined;
      assert (p + q)[0] == p[0];
      assert (p + q)[1..] == p[1..] + q;
      assert FollowPath(v, p + q) == FollowPath(next, p[1..] + q);
      assert FollowPath(v, p) == FollowPath(next, p[1..]);
      FollowPathAppend(next, p[1..], q);
    } else {
      assert p + q == q;
    }
  }

  /** getValueFromContext: starts at `context.item`, which throws on an undefined context. */
  function GetValueFromContext(path: string, context: Value): (r: Result<Value>)
    ensures r.Err? <==> IsNullish(context)
    ensures r.Ok? ==> r.value == FollowPath(GetProp(context, "item"), Split(path, '.'))
  {
    match ReadProp(context, "item")
    case Err(e) => Err(e)
    case Ok(item) => Ok(FollowPath(item, Split(path, '.')))
  }

  /** evaluateCondition: the truthiness of the value; false when the lookup throws. */
  function EvaluateCondition(condition: string, context: Value): (b: bool)
    ensures b <==> !IsNullish(context) && Truthy(FollowPath(GetProp(context, "item"), Split(condition, '.')))
  {
    match GetValueFromContext(condition, context)
    case Err(_) => false
    case Ok(v) => Truthy(v)
  }

  /** handleConditionalDirective: shown when the condition holds, hidden otherwise. */
  function ConditionalDisplay(condition: string, context: Value): (d: Display)
    ensures d == Shown <==> EvaluateCondition(condition, context)
    ensures d != Unset
  {
    if EvaluateCondition(condition, context) then Shown else Hidden
  }

  /** A conditional directive outside a list has no item context, so its element is
      always hidden, whatever the condition and the state. */
  lemma TopLevelConditionalHidden(condition: string)
    ensures ConditionalDisplay(condition, Undefined) == Hidden
  {
  }

  /** On a list item, a one-key condition tests that field of the item. */
  lemma ItemFieldCondition(key: string, item: map<string, Value>, context: map<string, Value>)
    requires '.' !in key
    requires "item" in context && context["item"] == Obj(item)
    ensures EvaluateCondition(key, Obj(context)) <==> key in item && Truthy(item[key])
  {
    assert IndexOf(key, '.') == |key|;
    assert key[..|key|] == key;
    assert Split(key, '.') == [key];
    assert FollowPath(Obj(item), [key]) == FollowPath(GetProp(Obj(item), key), []);
  }

  // ---------------------------------------------------------------------------
  // List directives

  /** The list handleListDirective renders: `value` when it is an array, else the state
      entry, else nothing. A truthy entry that is not an array has no `forEach`. */
  function ListSource(value: Value, stateEntry: Value): (r: Result<seq<Value>>)
    ensures value.Arr? ==> r == Ok(value.elems)
    ensures !value.Arr? && !Truthy(stateEntry) ==> r == Ok([])
    ensures !value.Arr? && stateEntry.Arr? ==> r == Ok(stateEntry.elems)
    ensures r.Err? <==> !value.Arr? && Truthy(stateEntry) && !stateEntry.Arr?
  {
    if value.Arr? then Ok(value.elems)
    else if !Truthy(stateEntry) then Ok([])
    else if stateEntry.Arr? then Ok(stateEntry.elems)
    else Err(TypeError)
  }

  /** A value that is not an array never decides the list: the state entry does, as if
      the value were absent. Giving a rendered list back as the value renders it again,
      whatever the state now holds. */
  lemma ListSourceOverride(value: Value, stateEntry: Value, otherEntry: Value)
    ensures !value.Arr? ==> ListSource(value, stateEntry) == ListSource(Undefined, stateEntry)
    ensures ListSource(value, stateEntry).Ok? ==>
      ListSource(Arr(ListSource(value, stateEntry).value), otherEntry) == ListSource(value, stateEntry)
  {
  }

  /** `{item, items: list, index}`. */
  function ItemContext(list: seq<Value>, index: nat): (ctx: Value)
    requires index < |list|
    ensures ctx.Obj? && ctx.fields.Keys == {"item", "items", "index"}
    ensures ctx.fields["item"] == list[index] && ctx.fields["items"] == Arr(list) && ctx.fields["index"] == Num(index)
  {
    Obj(map["item" := list[index], "items" := Arr(list), "index" := Num(index)])
  }

  /** Each context finds its own item in the list it carries at the index it carries,
      so the contexts of a list are pairwise distinct and recover the list in order. */
  lemma ItemContextsRecoverList(list: seq<Value>, i: nat, j: nat)
    requires i < |list| && j < |list|
    ensures var ctx := ItemContext(list, i);
      ctx.fields["items"].elems[ctx.fields["index"].n] == ctx.fields["item"]
    ensures i != j ==> ItemContext(list, i) != ItemContext(list, j)
    ensures seq(|list|, k requires 0 <= k < |list| => ItemContext(list, k).fields["item"]) == list
  {
    assert ItemContext(list, i).fields["index"] == Num(i);
    assert ItemContext(list, j).fields["index"] == Num(j);
  }

  /** `Array.from(container.children).filter(child => child !== element)` removed:
      text nodes and the template stay, every other element goes. */
  function KeepTemplate(children: seq<Node>, template: nat): (r: seq<Node>)
    ensures |r| <= |children|
    ensures forall k :: 0 <= k < |r| ==> r[k] in children && (r[k].Element? ==> r[k].id == template)
    ensures forall k :: 0 <= k < |children| && (!children[k].Element? || children[k].id == template) ==> children[k] in r
  {
    if children == [] then []
    else (if !children[0].Element? || children[0].id == template then [children[0]] else []) + KeepTemplate(children[1..], template)
  }

  function Flatten(parts: seq<seq<Node>>): (r: seq<Node>)
    decreases |parts|
  {
    if parts == [] then [] else parts[0] + Flatten(parts[1..])
  }

  /** The container's children after a list render: the kept nodes, then every item's
      clone in list order. */
  function RenderedChildren(children: seq<Node>, template: nat, clones: seq<seq<Node>>): (r: seq<Node>)
    ensures r == KeepTemplate(children, template) + Flatten(clones)
  {
    KeepTemplate(children, template) + Flatten(clones)
  }

  /** A second render replaces the first one's clones: what the first render appended
      is gone, because clones are elements other than the template. */
  lemma {:induction false} RerenderReplaces(children: seq<Node>, template: nat, first: seq<seq<Node>>, second: seq<seq<Node>>)
    requires forall i, k :: 0 <= i < |first| && 0 <= k < |first[i]| ==> first[i][k].Element? && first[i][k].id != template
    ensures RenderedChildren(RenderedChildren(children, template, first), template, second)
              == RenderedChildren(children, template, second)
  {
    var kept := KeepTemplate(children, template);
    KeepTemplateIdempotent(children, template);
    KeepTemplateDropsClones(first, template);
    KeepTemplateAppend(kept, Flatten(first), template);
    assert KeepTemplate(kept + Flatten(first), template) == kept + [];
    assert kept + [] == kept;
  }

  lemma {:induction false} KeepTemplateIdempotent(children: seq<Node>, template: nat)
    ensures KeepTemplate(KeepTemplate(children, template), template) == KeepTemplate(children, template)
  {
    if children != [] {
      KeepTemplateIdempotent(children[1..], template);
      var head := if !children[0].Element? || children[0].id == template then [children[0]] else [];
      var tail := KeepTemplate(children[1..], template);
      KeepTemplateAppend(head, tail, template);
    }
  }

  lemma {:induction false} KeepTemplateAppend(a: seq<Node>, b: seq<Node>, template: nat)
    ensures KeepTemplate(a + b, template) == KeepTemplate(a, template) + KeepTemplate(b, template)
  {
    if a != [] {
      assert (a + b)[1..] == a[1..] + b;
      KeepTemplateAppend(a[1..], b, template);
    } else {
      assert a + b == b;
    }
  }

  lemma {:induction false} KeepTemplateDropsClones(parts: seq<seq<Node>>, template: nat)
    requires forall i, k :: 0 <= i < |parts| && 0 <= k < |parts[i]| ==> parts[i][k].Element? && parts[i][k].id != template
    ensures KeepTemplate(Flatten(parts), template) == []
    decreases |parts|
  {
    if parts != [] {
      DropAll(parts[0], template);
      KeepTemplateDropsClones(parts[1..], template);
      KeepTemplateAppend(parts[0], Flatten(parts[1..]), template);
    }
  }

  lemma {:induction false} DropAll(ns: seq<Node>, template: nat)
    requires forall k :: 0 <= k < |ns| ==> ns[k].Element? && ns[k].id != template
    ensures KeepTemplate(ns, template) == []
  {
    if ns != [] { DropAll(ns[1..], template); }
  }

  // ---------------------------------------------------------------------------
  // Cloning

  /** `document.importNode(template, true)`: a deep copy whose elements get fresh
      identities, numbered in pre-order from `next`. */
  function Renumber(n: Node, next: nat): (r: (Node, nat))
    ensures r.1 >= next
    decreases n, 1
  {
    match n
    case Element(_, tag, attrs, display, children, content) =>
      var kids := RenumberAll(children, next + 1);
      var inner := RenumberAll(content, kids.1);
      (Element(next, tag, attrs, display, kids.0, inner.0), inner.1)
    case Fragment(children) =>
      var kids := RenumberAll(children, next);
      (Fragment(kids.0), kids.1)
    case Text(_) => (n, next)
  }

  function RenumberAll(ns: seq<Node>, next: nat): (r: (seq<Node>, nat))
    ensures |r.0| == |ns| && r.1 >= next
    decreases ns, 0
  {
    if ns == [] then ([], next)
    else
      var first := Renumber(ns[0], next);
      var rest := RenumberAll(ns[1..], first.1);
      ([first.0] + rest.0, rest.1)
  }

  /** Every id of a renumbered tree lies in the range of identities it consumed. */
  lemma {:induction false} RenumberFresh(n: Node, next: nat)
    ensures forall i :: i in Ids(Renumber(n, next).0) ==> next <= i < Renumber(n, next).1
    decreases n, 1
  {
    match n
    case Element(_, tag, attrs, display, children, content) =>
      RenumberAllFresh(children, next + 1);
    case Fragment(children) =>
      RenumberAllFresh(children, next);
    case Text(_) =>
  }

  lemma {:induction false} RenumberAllFresh(ns: seq<Node>, next: nat)
    ensures forall i :: i in IdsAll(RenumberAll(ns, next).0) ==> next <= i < RenumberAll(ns, next).1
    decreases ns, 0
  {
    if ns != [] {
      var first := Renumber(ns[0], next);
      RenumberFresh(ns[0], next);
      RenumberAllFresh(ns[1..], first.1);
      var r := RenumberAll(ns, next);
      assert r.0[0] == first.0 && r.0[1..] == RenumberAll(ns[1..], first.1).0;
      assert IdsAll(r.0) == Ids(first.0) + IdsAll(r.0[1..]);
    }
  }

  /** Cloning keeps the directives of the template, re-addressed to the clone's elements. */
  lemma {:induction false} RenumberKeepsDirectiveCount(n: Node, next: nat)
    ensures |Collect(Renumber(n, next).0)| == |Collect(n)|
    decreases n, 1
  {
    match n
    case Element(id, tag, attrs, display, children, content) =>
      RenumberAllKeepsDirectiveCount(children, next + 1);
      AttrDirectivesCount(id, next, attrs);
    case Fragment(children) =>
      RenumberAllKeepsDirectiveCount(children, next);
    case Text(_) =>
  }

  lemma {:induction false} RenumberAllKeepsDirectiveCount(ns: seq<Node>, next: nat)
    ensures |CollectAll(RenumberAll(ns, next).0)| == |CollectAll(ns)|
    decreases ns, 0
  {
    if ns != [] {
      var first := Renumber(ns[0], next);
      RenumberKeepsDirectiveCount(ns[0], next);
      RenumberAllKeepsDirectiveCount(ns[1..], first.1);
      var r := RenumberAll(ns, next);
      assert r.0[0] == first.0 && r.0[1..] == RenumberAll(ns[1..], first.1).0;
    }
  }

  lemma {:induction false} AttrDirectivesCount(a: nat, b: nat, attrs: seq<Attr>)
    ensures |AttrDirectives(a, attrs)| == |AttrDirectives(b, attrs)|
  {
    if attrs != [] { AttrDirectivesCount(a, b, attrs[1..]); }
  }

  // ---------------------------------------------------------------------------
  // Locating elements

  /** The element with that id, if the tree holds one (the first in pre-order). */
  function Find(n: Node, element: nat): (r: Option<Node>)
    ensures r.Some? ==> r.value.Element? && r.value.id == element
    decreases n, 1
  {
    match n
    case Element(id, _, _, _, children, _) => if id == element then Some(n) else FindAll(children, element)
    case Fragment(children) => FindAll(children, element)
    case Text(_) => None
  }

  function FindAll(ns: seq<Node>, element: nat): (r: Option<Node>)
    ensures r.Some? ==> r.value.Element? && r.value.id == element
    decreases ns, 0
  {
    if ns == [] then None
    else var first := Find(ns[0], element); if first.Some? then first else FindAll(ns[1..], element)
  }

  /** `element.parentElement`: the id of the element whose children hold it. A node
      directly under a fragment has no parent element. */
  function ParentOf(n: Node, element: nat): Option<nat>
    decreases n, 1
  {
    match n
    case Element(id, _, _, _, children, _) =>
      if exists k :: 0 <= k < |children| && children[k].Element? && children[k].id == element then Some(id)
      else ParentOfAll(children, element)
    case Fragment(children) => ParentOfAll(children, element)
    case Text(_) => None
  }

  function ParentOfAll(ns: seq<Node>, element: nat): Option<nat>
    decreases ns, 0
  {
    if ns == [] then None
    else var first := ParentOf(ns[0], element); if first.Some? then first else ParentOfAll(ns[1..], element)
  }

  /** The tree with the children of the element `container` replaced. */
  function ReplaceChildren(n: Node, container: nat, children': seq<Node>): Node
    decreases n, 1
  {
    match n
    case Element(id, tag, attrs, display, children, content) =>
      if id == container then Element(id, tag, attrs, display, children', content)
      else Element(id, tag, attrs, display, ReplaceChildrenAll(children, container, children'), content)
    case Fragment(children) => Fragment(ReplaceChildrenAll(children, container, children'))
    case Text(_) => n
  }

  function ReplaceChildrenAll(ns: seq<Node>, container: nat, children': seq<Node>): (r: seq<Node>)
    ensures |r| == |ns|
    decreases ns, 0
  {
    if ns == [] then [] else [ReplaceChildren(ns[0], container, children')] + ReplaceChildrenAll(ns[1..], container, children')
  }

  /** Replacing the children of the root element gives exactly the new children. */
  lemma ReplaceRootChildren(id: nat, tag: string, attrs: seq<Attr>, display: Display, children: seq<Node>,
                            content: seq<Node>, children': seq<Node>)
    ensures ReplaceChildren(Element(id, tag, attrs, display, children, content), id, children').children == children'
  {
  }
}
