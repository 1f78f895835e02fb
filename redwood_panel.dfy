// The Redwood panel: an extension's widget tree, rebuilt from frames of
// changes (create, destroy, add/move/remove child, set property, set
// modifiers), plus the process-wide queues that hold frames for panels
// whose channel is not registered yet and events waiting to be drained.
//
// The panel's maps and root list are fields of a `RedwoodPanelView`; the
// three process-wide maps are fields of a `PanelRegistry`. JSON decoding is
// a parameter (`Parser`: `None` is a decoding error); JSON values are a
// datatype, with an object's members in order.
module RedwoodPanel {
  import opened Wrappers
  import opened ChildLists

  const ChildrenTagDefault: nat := 1

  const WidgetTextInput: nat := 1
  const WidgetButton: nat := 4

  const EventTextInputOnChange: nat := 3
  const EventImageOnClick: nat := 2
  const EventButtonOnClick: nat := 3
  const EventToggleOnChange: nat := 4

  // ------------------------------------------------------------ JSON values

  datatype Json =
    | JNull
    | JBool(b: bool)
    | JNumber(n: real)
    | JString(s: string)
    | JArray(items: seq<Json>)
    | JObject(members: seq<Member>)

  datatype Member = Member(key: string, value: Json)

  /** Decodes a JSON text; `None` is a decoding error. */
  type Parser = string -> Option<Json>

  /**
   * The value stored under `key`. With a repeated key this finds the first
   * member; the decoded object reaching here comes from the parser
   * parameter, so which duplicate a real JSON decoder keeps is not modelled.
   */
  function Get(members: seq<Member>, key: string): (r: Option<Json>)
    ensures r.None? <==> forall i | 0 <= i < |members| :: members[i].key != key
    ensures r.Some? ==> exists i | 0 <= i < |members| :: members[i] == Member(key, r.value)
  {
    if members == [] then None
    else if members[0].key == key then Some(members[0].value)
    else
      var r := Get(members[1..], key);
      assert forall i | 1 <= i < |members| :: members[i] == members[1..][i - 1];
      r
  }

  /** `Value::as_f64`: a number's value. */
  function AsNumber(v: Option<Json>): (r: Option<real>)
    ensures r.Some? <==> v.Some? && v.value.JNumber?
    ensures r.Some? ==> r.value == v.value.n
  {
    if v.Some? && v.value.JNumber? then Some(v.value.n) else None
  }

  /**
   * `dp_from_value`: a number, an object's numeric "value" member, or
   * whatever the sole member of a one-member object gives.
   */
  function DpFromValue(v: Json): (r: Option<real>)
    ensures v.JNumber? ==> r == Some(v.n)
    ensures !v.JNumber? && !v.JObject? ==> r.None?
    ensures v.JObject? && AsNumber(Get(v.members, "value")).Some? ==> r == AsNumber(Get(v.members, "value"))
    ensures v.JObject? && AsNumber(Get(v.members, "value")).None? && |v.members| != 1 ==> r.None?
  {
    match v
    case JNumber(n) => Some(n)
    case JObject(ms) =>
      var inner := AsNumber(Get(ms, "value"));
      if inner.Some? then inner
      else if |ms| == 1 then
        assert ms[0] in ms;
        DpFromValue(ms[0].value)
      else None
    case _ => None
  }

  /** `inner` wrapped in one single-member object per key, outermost first. */
  function Wrapped(inner: Json, keys: seq<string>): Json {
    if keys == [] then inner else JObject([Member(keys[0], Wrapped(inner, keys[1..]))])
  }

  /**
   * However deeply a number is wrapped in single-member objects, under
   * whatever keys, `dp_from_value` finds it.
   */
  lemma {:induction false} DpSeesThroughWrappers(n: real, keys: seq<string>)
    ensures DpFromValue(Wrapped(JNumber(n), keys)) == Some(n)
  {
    if keys != [] {
      DpSeesThroughWrappers(n, keys[1..]);
      var ms := [Member(keys[0], Wrapped(JNumber(n), keys[1..]))];
      assert Get(ms, "value") == if keys[0] == "value" then Some(Wrapped(JNumber(n), keys[1..])) else None;
    }
  }

  /**
   * `extract_field_dp`: an object's `field` member when present, else the
   * value itself.
   */
  function ExtractFieldDp(v: Json, field: string): (r: Option<real>)
    ensures v.JObject? && Get(v.members, field).Some? ==> r == DpFromValue(Get(v.members, field).value)
    ensures !(v.JObject? && Get(v.members, field).Some?) ==> r == DpFromValue(v)
  {
    match v
    case JObject(ms) =>
      var inner := Get(ms, field);
      if inner.Some? then DpFromValue(inner.value) else DpFromValue(v)
    case _ => DpFromValue(v)
  }

  /** The named field wins over the object's own "value". */
  lemma FieldShadowsValue(field: string, a: real, b: real)
    requires field != "value"
    ensures var v := JObject([Member(field, JNumber(a)), Member("value", JNumber(b))]);
      ExtractFieldDp(v, field) == Some(a) && DpFromValue(v) == Some(b)
  {
    var ms := [Member(field, JNumber(a)), Member("value", JNumber(b))];
    assert Get(ms, field) == Some(JNumber(a));
    assert ms[1..] == [Member("value", JNumber(b))];
    assert Get(ms, "value") == Some(JNumber(b));
  }

  datatype EdgeInsets = EdgeInsets(start: real, end: real, top: real, bottom: real)

  /** The numeric member `key`, or `default` when it is missing or not a number. */
  function NumberOr(members: seq<Member>, key: string, default: real): real {
    var n := AsNumber(Get(members, key));
    if n.Some? then n.value else default
  }

  /** `parse_inner`: start and top default to 0, end to start, bottom to top. */
  function ParseInner(members: seq<Member>): (r: EdgeInsets)
    ensures r.start == NumberOr(members, "start", 0.0) && r.top == NumberOr(members, "top", 0.0)
    ensures AsNumber(Get(members, "end")).None? ==> r.end == r.start
    ensures AsNumber(Get(members, "bottom")).None? ==> r.bottom == r.top
    ensures AsNumber(Get(members, "end")).Some? ==> r.end == AsNumber(Get(members, "end")).value
    ensures AsNumber(Get(members, "bottom")).Some? ==> r.bottom == AsNumber(Get(members, "bottom")).value
  {
    var start := NumberOr(members, "start", 0.0);
    var top := NumberOr(members, "top", 0.0);
    EdgeInsets(start, NumberOr(members, "end", start), top, NumberOr(members, "bottom", top))
  }

  /**
   * `parse_margin`: only objects give insets; a nested "margin" object is
   * read in preference to the object itself.
   */
  function ParseMargin(v: Json): (r: Option<EdgeInsets>)
    ensures r.Some? <==> v.JObject?
    ensures v.JObject? && Get(v.members, "margin").Some? && Get(v.members, "margin").value.JObject?
      ==> r == Some(ParseInner(Get(v.members, "margin").value.members))
    ensures v.JObject? && !(Get(v.members, "margin").Some? && Get(v.members, "margin").value.JObject?)
      ==> r == Some(ParseInner(v.members))
  {
    match v
    case JObject(ms) =>
      var nested := Get(ms, "margin");
      if nested.Some? && nested.value.JObject? then Some(ParseInner(nested.value.members))
      else Some(ParseInner(ms))
    case _ => None
  }

  /** Only start and top given: the insets mirror them. */
  lemma MarginMirrors(a: real, b: real)
    ensures ParseMargin(JObject([Member("start", JNumber(a)), Member("top", JNumber(b))]))
         == Some(EdgeInsets(a, a, b, b))
  {
    var ms := [Member("start", JNumber(a)), Member("top", JNumber(b))];
    assert ms[1..] == [Member("top", JNumber(b))];
    assert Get(ms, "start") == Some(JNumber(a)) && Get(ms, "top") == Some(JNumber(b));
    assert Get(ms, "end").None? && Get(ms, "bottom").None? && Get(ms, "margin").None?;
  }

  // ------------------------------------------------------------ changes

  datatype Modifier = Modifier(tag: int, value: Option<Json>)

  datatype ModifierElement = ModifierElement(tag: int, valueJson: Option<string>)

  datatype PanelNode = PanelNode(widgetTag: nat, properties: map<nat, Json>, modifiers: seq<Modifier>)

  datatype Change =
    | Create(id: int, widget: nat)
    | Destroy(id: int)
    | AddChild(parent: int, slot: nat, child: int, index: nat)
    | MoveChild(parent: int, slot: nat, fromIndex: nat, toIndex: nat, count: nat)
    | RemoveChild(parent: int, slot: nat, index: nat, count: nat, detach: bool)
    | SetProperty(id: int, widget: nat, property: nat, valueJson: string)
    | SetModifiers(id: int, elements: seq<ModifierElement>)

  datatype FrameMessage = FrameMessage(changes: seq<Change>)

  datatype Tree = Tree(nodes: map<int, PanelNode>, children: Lists, roots: seq<int>)

  function ListOf(children: Lists, parent: int): seq<int> {
    if parent in children then children[parent] else []
  }

  /**
   * The contiguous run `from..from + count` moved so that it starts at
   * `to` in the result, everything else keeping its order.
   */
  function Moved(list: seq<int>, from: nat, count: nat, to: nat): (r: seq<int>)
    requires from + count <= |list| && to + count <= |list|
    ensures |r| == |list| && multiset(r) == multiset(list)
    ensures r[to..to + count] == list[from..from + count]
    ensures r[..to] + r[to + count..] == list[..from] + list[from + count..]
  {
    var rest := list[..from] + list[from + count..];
    var segment := list[from..from + count];
    var r := rest[..to] + segment + rest[to..];
    MovedPermutes(list, from, count, to);
    assert r[to..to + count] == segment;
    assert r[..to] == rest[..to] && r[to + count..] == rest[to..];
    r
  }

  lemma MovedPermutes(list: seq<int>, from: nat, count: nat, to: nat)
    requires from + count <= |list| && to + count <= |list|
    ensures var rest := list[..from] + list[from + count..];
      multiset(rest[..to] + list[from..from + count] + rest[to..]) == multiset(list)
  {
    var a, s, b := list[..from], list[from..from + count], list[from + count..];
    var rest := a + b;
    assert list == a + s + b;
    assert rest == rest[..to] + rest[to..];
    calc {
      multiset(rest[..to] + s + rest[to..]);
      multiset(rest[..to]) + multiset(s) + multiset(rest[to..]);
      multiset(rest) + multiset(s);
      multiset(a) + multiset(b) + multiset(s);
      multiset(list);
    }
  }

  /** Moving the run back to where it came from restores the list. */
  lemma MoveBack(list: seq<int>, from: nat, count: nat, to: nat)
    requires from + count <= |list| && to + count <= |list|
    ensures Moved(Moved(list, from, count, to), to, count, from) == list
  {
    var m := Moved(list, from, count, to);
    var rest := list[..from] + list[from + count..];
    assert m[..to] + m[to + count..] == rest;
    assert rest[..from] == list[..from] && rest[from..] == list[from + count..];
    assert list == list[..from] + list[from..from + count] + list[from + count..];
  }

  /** The clamped bounds of a move on a non-empty list with a non-zero count. */
  function MoveBounds(len: nat, fromIndex: nat, count: nat, toIndex: nat): (r: (nat, nat, nat))
    requires len > 0 && count > 0
    ensures r.0 <= len - 1 && r.0 == Min(fromIndex, len - 1)
    ensures 0 < r.1 <= len - r.0 && r.1 == Min(count, len - r.0)
    ensures r.2 <= len - r.1 && r.2 == Min(toIndex, len - r.1)
  {
    var from := Min(fromIndex, len - 1);
    var n := Min(count, len - from);
    (from, n, Min(toIndex, len - n))
  }

  function Min(a: nat, b: nat): nat {
    if a < b then a else b
  }

  /**
   * AddChild: ignored on any slot but the default one. Otherwise the
   * parent's list exists afterwards, the child's first occurrence leaves the
   * roots, and the child is inserted at the clamped index unless already
   * listed.
   */
  function ChildAdded(t: Tree, parent: int, slot: nat, child: int, index: nat): (r: Tree)
    ensures slot != ChildrenTagDefault ==> r == t
    ensures slot == ChildrenTagDefault ==>
      && parent in r.children
      && r.children[parent] == InsertedChildren(ListOf(t.children, parent), child, index)
      && (forall p | p != parent :: (p in r.children <==> p in t.children))
      && (forall p | p in t.children && p != parent :: r.children[p] == t.children[p])
      && (child in t.roots ==> multiset(r.roots) == multiset(t.roots) - multiset{child})
      && (child !in t.roots ==> r.roots == t.roots)
      && r.nodes == t.nodes
  {
    if slot != ChildrenTagDefault then t
    else
      var list := InsertedChildren(ListOf(t.children, parent), child, index);
      ListReplaced(t.children, parent, list);
      t.(children := t.children[parent := list], roots := RemoveFirst(t.roots, child))
  }

  /** Replacing one parent's list leaves every other parent's list alone. */
  lemma ListReplaced(lists: Lists, parent: int, list: seq<int>)
    ensures var r := lists[parent := list];
      && parent in r && r[parent] == list
      && (forall p | p != parent :: (p in r <==> p in lists))
      && (forall p | p in lists && p != parent :: r[p] == lists[p])
  {
  }

  /**
   * MoveChild: ignored on another slot, an unknown parent, an empty list
   * or a zero count; otherwise the clamped run moves, so the list keeps its
   * length and its elements.
   */
  function ChildMoved(t: Tree, parent: int, slot: nat, fromIndex: nat, toIndex: nat, count: nat): (r: Tree)
    ensures r.nodes == t.nodes && r.roots == t.roots && r.children.Keys == t.children.Keys
    ensures forall p | p in t.children && p != parent :: r.children[p] == t.children[p]
    ensures slot != ChildrenTagDefault || parent !in t.children || t.children[parent] == [] || count == 0 ==> r == t
    ensures parent in t.children ==>
      |r.children[parent]| == |t.children[parent]| && multiset(r.children[parent]) == multiset(t.children[parent])
  {
    if slot != ChildrenTagDefault || parent !in t.children || t.children[parent] == [] || count == 0 then t
    else
      var list := t.children[parent];
      var b := MoveBounds(|list|, fromIndex, count, toIndex);
      t.(children := t.children[parent := Moved(list, b.0, b.1, b.2)])
  }

  /**
   * The clamped run `index..index + count` of a non-empty list: its start
   * stays inside the list and its end never passes the list's end.
   */
  function RemoveBounds(len: nat, index: nat, count: nat): (r: (nat, nat))
    requires len > 0
    ensures r.0 <= len - 1 && r.0 == Min(index, len - 1)
    ensures r.1 <= len - r.0 && r.1 == Min(count, len - r.0)
  {
    var start := Min(index, len - 1);
    (start, Min(count, len - start))
  }

  /**
   * RemoveChild: ignored on another slot, an unknown parent or an empty
   * list; otherwise exactly the clamped run goes.
   */
  function ChildrenRemoved(t: Tree, parent: int, slot: nat, index: nat, count: nat): (r: Tree)
    ensures r.nodes == t.nodes && r.roots == t.roots && r.children.Keys == t.children.Keys
    ensures forall p | p in t.children && p != parent :: r.children[p] == t.children[p]
    ensures slot != ChildrenTagDefault || parent !in t.children || t.children[parent] == [] ==> r == t
    ensures slot == ChildrenTagDefault && parent in t.children && t.children[parent] != [] ==>
      var list := t.children[parent];
      var b := RemoveBounds(|list|, index, count);
      && |r.children[parent]| == |list| - b.1
      && r.children[parent] == list[..b.0] + list[b.0 + b.1..]
      && multiset(r.children[parent]) + multiset(list[b.0..b.0 + b.1]) == multiset(list)
  {
    if slot != ChildrenTagDefault || parent !in t.children || t.children[parent] == [] then t
    else
      var list := t.children[parent];
      var b := RemoveBounds(|list|, index, count);
      assert list == list[..b.0] + list[b.0..b.0 + b.1] + list[b.0 + b.1..];
      t.(children := t.children[parent := list[..b.0] + list[b.0 + b.1..]])
  }

  /**
   * SetProperty: stored on a known node when the JSON decodes; otherwise
   * nothing changes.
   */
  function PropertySet(t: Tree, id: int, property: nat, json: string, parse: Parser): (r: Tree)
    ensures r.children == t.children && r.roots == t.roots && r.nodes.Keys == t.nodes.Keys
    ensures id !in t.nodes || parse(json).None? ==> r == t
    ensures id in t.nodes && parse(json).Some? ==>
      r.nodes == t.nodes[id := t.nodes[id].(properties := t.nodes[id].properties[property := parse(json).value])]
  {
    if id in t.nodes && parse(json).Some? then
      var n := t.nodes[id];
      t.(nodes := t.nodes[id := n.(properties := n.properties[property := parse(json).value])])
    else t
  }

  /**
   * The modifier list a SetModifiers change installs: one per element, in
   * order, with the tag kept and a value only when it decodes.
   */
  function ParsedModifiers(elements: seq<ModifierElement>, parse: Parser): (r: seq<Modifier>)
    ensures |r| == |elements|
    ensures forall i | 0 <= i < |r| :: r[i].tag == elements[i].tag
    ensures forall i | 0 <= i < |r| ::
      (elements[i].valueJson.None? ==> r[i].value.None?)
      && (elements[i].valueJson.Some? ==> r[i].value == parse(elements[i].valueJson.value))
  {
    if elements == [] then []
    else [ParsedModifier(elements[0], parse)] + ParsedModifiers(elements[1..], parse)
  }

  function ParsedModifier(e: ModifierElement, parse: Parser): Modifier {
    Modifier(e.tag, if e.valueJson.Some? then parse(e.valueJson.value) else None)
  }

  /** SetModifiers: a known node's whole modifier list is replaced. */
  function ModifiersSet(t: Tree, id: int, elements: seq<ModifierElement>, parse: Parser): (r: Tree)
    ensures r.children == t.children && r.roots == t.roots && r.nodes.Keys == t.nodes.Keys
    ensures id !in t.nodes ==> r == t
    ensures id in t.nodes ==>
      r.nodes == t.nodes[id := t.nodes[id].(modifiers := ParsedModifiers(elements, parse))]
  {
    if id in t.nodes then
      t.(nodes := t.nodes[id := t.nodes[id].(modifiers := ParsedModifiers(elements, parse))])
    else t
  }

  /**
   * Create: a node with no properties or modifiers; the child list is
   * kept if one exists.
   */
  function Created(t: Tree, id: int, widget: nat): (r: Tree)
    ensures r.nodes == t.nodes[id := PanelNode(widget, map[], [])]
    ensures id in r.children && r.children[id] == ListOf(t.children, id)
    ensures forall p | p != id :: (p in r.children <==> p in t.children)
    ensures forall p | p in t.children :: r.children[p] == t.children[p]
    ensures r.roots == t.roots
  {
    t.(nodes := t.nodes[id := PanelNode(widget, map[], [])],
       children := if id in t.children then t.children else t.children[id := []])
  }

  /**
   * Destroy: the node and its own list go and the id leaves every other
   * list; the roots are left alone (the frame clears them).
   */
  function Destroyed(t: Tree, id: int): (r: Tree)
    ensures r.nodes == t.nodes - {id}
    ensures r.children.Keys == t.children.Keys - {id}
    ensures id !in Listed(r.children)
    ensures forall p | p in r.children :: multiset(r.children[p]) == multiset(t.children[p])[id := 0]
    ensures r.roots == t.roots
  {
    Tree(t.nodes - {id}, WithoutEverywhere(t.children - {id}, id), t.roots)
  }

  /** `apply_change`. */
  function Step(t: Tree, change: Change, parse: Parser): Tree {
    match change
    case Create(id, widget) => Created(t, id, widget)
    case Destroy(id) => Destroyed(t, id)
    case AddChild(parent, slot, child, index) => ChildAdded(t, parent, slot, child, index)
    case MoveChild(parent, slot, fromIndex, toIndex, count) => ChildMoved(t, parent, slot, fromIndex, toIndex, count)
    case RemoveChild(parent, slot, index, count, _) => ChildrenRemoved(t, parent, slot, index, count)
    case SetProperty(id, _, property, json) => PropertySet(t, id, property, json, parse)
    case SetModifiers(id, elements) => ModifiersSet(t, id, elements, parse)
  }

  function Steps(t: Tree, changes: seq<Change>, parse: Parser): Tree
    decreases |changes|
  {
    if changes == [] then t else Steps(Step(t, changes[0], parse), changes[1..], parse)
  }

  /** `apply_frame`: every change in order, then the roots are cleared. */
  function FrameApplied(t: Tree, frame: FrameMessage, parse: Parser): (r: Tree)
    ensures r.roots == []
  {
    Steps(t, frame.changes, parse).(roots := [])
  }

  // ------------------------------------------------------------ properties

  /**
   * An added child is listed once under its parent, however often it is
   * added.
   */
  lemma AddChildNeverDuplicates(t: Tree, parent: int, child: int, index: nat)
    requires NoDuplicates(ListOf(t.children, parent))
    ensures var r := ChildAdded(t, parent, ChildrenTagDefault, child, index);
      child in r.children[parent] && NoDuplicates(r.children[parent])
      && ChildAdded(r, parent, ChildrenTagDefault, child, index).children == r.children
  {
    var r := ChildAdded(t, parent, ChildrenTagDefault, child, index);
    var l := r.children[parent];
    assert child in multiset(l);
    assert InsertedChildren(l, child, index) == l;
    assert ListOf(r.children, parent) == l;
    assert r.children[parent := l] == r.children;
  }

  /** Destroy unlists exactly the destroyed id. */
  lemma DestroyUnlistsOnlyTarget(t: Tree, id: int)
    ensures Listed(Destroyed(t, id).children) == Listed(t.children - {id}) - {id}
  {
    ListedWithoutEverywhere(t.children - {id}, id);
  }

  // ------------------------------------------------------------ the panel

  /**
   * The `segment.drain(..).enumerate()` loop: the run is cut out and put
   * back one element at a time from `to` on.
   */
  method MoveSegment(list: seq<int>, from: nat, count: nat, to: nat) returns (r: seq<int>)
    requires from + count <= |list| && to + count <= |list|
    ensures r == Moved(list, from, count, to)
  {
    var segment := list[from..from + count];
    var rest := list[..from] + list[from + count..];
    r := rest;
    var offset := 0;
    while offset < count
      invariant offset <= count
      invariant r == rest[..to] + segment[..offset] + rest[to..]
    {
      assert r[..to + offset] == rest[..to] + segment[..offset];
      assert r[to + offset..] == rest[to..];
      assert segment[..offset + 1] == segment[..offset] + [segment[offset]];
      r := r[..to + offset] + [segment[offset]] + r[to + offset..];
      offset := offset + 1;
    }
    assert segment[..offset] == segment;
  }

  /** The loop that decodes each modifier element in turn. */
  method ParseModifiers(elements: seq<ModifierElement>, parse: Parser) returns (modifiers: seq<Modifier>)
    ensures modifiers == ParsedModifiers(elements, parse)
  {
    modifiers := [];
    var i := 0;
    while i < |elements|
      invariant i <= |elements|
      invariant modifiers == ParsedModifiers(elements[..i], parse)
    {
      ParsedModifiersSnoc(elements[..i], elements[i], parse);
      assert elements[..i + 1] == elements[..i] + [elements[i]];
      modifiers := modifiers + [ParsedModifier(elements[i], parse)];
      i := i + 1;
    }
    assert elements[..i] == elements;
  }

  lemma {:induction false} ParsedModifiersSnoc(es: seq<ModifierElement>, e: ModifierElement, parse: Parser)
    ensures ParsedModifiers(es + [e], parse) == ParsedModifiers(es, parse) + [ParsedModifier(e, parse)]
  {
    if es != [] {
      assert (es + [e])[1..] == es[1..] + [e];
      ParsedModifiersSnoc(es[1..], e, parse);
    } else {
      assert es + [e] == [e];
    }
  }

  class RedwoodPanelView {
    const panelId: int
    var nodes: map<int, PanelNode>
    var children: Lists
    var roots: seq<int>

    function State(): Tree
      reads this
    {
      Tree(nodes, children, roots)
    }

    constructor(panelId: int)
      ensures this.panelId == panelId && State() == Tree(map[], map[], [])
    {
      this.panelId := panelId;
      nodes, children, roots := map[], map[], [];
    }

    /** `apply_change`. */
    method ApplyChange(change: Change, parse: Parser)
      modifies this
      ensures State() == Step(old(State()), change, parse)
    {
      match change {
        case Destroy(id) =>
          var rest := StripEverywhere(children - {id}, id);
          nodes, children := nodes - {id}, rest;
        case MoveChild(parent, slot, fromIndex, toIndex, count) =>
          if slot != ChildrenTagDefault || parent !in children || children[parent] == [] || count == 0 {
            return;
          }
          var list := children[parent];
          var b := MoveBounds(|list|, fromIndex, count, toIndex);
          var moved := MoveSegment(list, b.0, b.1, b.2);
          children := children[parent := moved];
        case SetModifiers(id, elements) =>
          if id in nodes {
            var modifiers := ParseModifiers(elements, parse);
            nodes := nodes[id := nodes[id].(modifiers := modifiers)];
          }
        case _ =>
          var t := Step(State(), change, parse);
          nodes, children, roots := t.nodes, t.children, t.roots;
      }
    }

    /** `apply_frame`. */
    method ApplyFrame(frame: FrameMessage, parse: Parser)
      modifies this
      ensures State() == FrameApplied(old(State()), frame, parse)
    {
      var i := 0;
      while i < |frame.changes|
        invariant i <= |frame.changes|
        invariant Steps(State(), frame.changes[i..], parse) == Steps(old(State()), frame.changes, parse)
      {
        assert frame.changes[i..][1..] == frame.changes[i + 1..];
        ApplyChange(frame.changes[i], parse);
        i := i + 1;
      }
      roots := [];
    }

    /**
     * `render`: apply the waiting frames, then draw the list of the virtual
     * root 0 when it exists, else the roots, inferred as the unlisted nodes
     * when there are none.
     */
    method Render(waiting: seq<FrameMessage>, parse: Parser) returns (top: seq<int>)
      modifies this
      ensures nodes == Frames(old(State()), waiting, parse).nodes
      ensures children == Frames(old(State()), waiting, parse).children
      ensures 0 in children ==> top == children[0]
      ensures 0 !in children ==> top == roots
      ensures 0 in children || Frames(old(State()), waiting, parse).roots != [] ==>
        roots == Frames(old(State()), waiting, parse).roots
      ensures 0 !in children && Frames(old(State()), waiting, parse).roots == [] ==>
        NoDuplicates(roots) && forall h :: h in roots <==> h in nodes && h !in Listed(children)
    {
      var i := 0;
      while i < |waiting|
        invariant i <= |waiting|
        invariant Frames(State(), waiting[i..], parse) == Frames(old(State()), waiting, parse)
      {
        assert waiting[i..][1..] == waiting[i + 1..];
        ApplyFrame(waiting[i], parse);
        i := i + 1;
      }
      if 0 in children {
        top := children[0];
      } else {
        if roots == [] {
          roots := InferredRoots(nodes.Keys, children);
        }
        top := roots;
      }
    }
  }

  function Frames(t: Tree, frames: seq<FrameMessage>, parse: Parser): Tree
    decreases |frames|
  {
    if frames == [] then t else Frames(FrameApplied(t, frames[0], parse), frames[1..], parse)
  }

  // ------------------------------------------------------------ queues

  /**
   * A panel's frame sender; `open` while its receiver exists. The channel
   * is unbounded, so a send fails only once it is closed.
   */
  datatype Sender = Sender(channel: int, open: bool)

  datatype FrameDelivery = FrameDelivery(channel: int, frame: FrameMessage)

  datatype RedwoodEvent = RedwoodEvent(id: int, widget: nat, event: nat, argsJson: seq<string>)

  /** The frames of `queue` handed to `channel`, front first. */
  function Flushed(channel: int, queue: seq<FrameMessage>): (r: seq<FrameDelivery>)
    ensures |r| == |queue|
    ensures forall i | 0 <= i < |r| :: r[i] == FrameDelivery(channel, queue[i])
  {
    if queue == [] then [] else [FrameDelivery(channel, queue[0])] + Flushed(channel, queue[1..])
  }

  /** The panel senders, pending frames and event queues of every panel. */
  class PanelRegistry {
    var senders: map<int, Sender>
    var pending: map<int, seq<FrameMessage>>
    var events: map<int, seq<RedwoodEvent>>
    var delivered: seq<FrameDelivery>

    constructor()
      ensures senders == map[] && pending == map[] && events == map[] && delivered == []
    {
      senders, pending, events, delivered := map[], map[], map[], [];
    }

    /**
     * `dispatch_frame`: sent when the panel's sender is registered and
     * open, otherwise queued behind the panel's earlier pending frames.
     */
    method DispatchFrame(panel: int, frame: FrameMessage)
      modifies this`pending, this`delivered
      ensures panel in senders && senders[panel].open ==>
        delivered == old(delivered) + [FrameDelivery(senders[panel].channel, frame)] && pending == old(pending)
      ensures !(panel in senders && senders[panel].open) ==>
        delivered == old(delivered)
        && pending == old(pending)[panel := (if panel in old(pending) then old(pending)[panel] else []) + [frame]]
    {
      if panel in senders && senders[panel].open {
        delivered := delivered + [FrameDelivery(senders[panel].channel, frame)];
      } else {
        var queue := if panel in pending then pending[panel] else [];
        pending := pending[panel := queue + [frame]];
      }
    }

    /**
     * `register_panel_channel`: the sender is stored and the panel's
     * pending frames are sent front first. On an open sender all of them
     * go and the entry is removed; on a closed one the first send fails,
     * that frame is dropped, and the rest are queued again.
     */
    method RegisterPanelChannel(panel: int, tx: Sender)
      modifies this`senders, this`pending, this`delivered
      ensures senders == old(senders)[panel := tx]
      ensures panel !in old(pending) ==> pending == old(pending) && delivered == old(delivered)
      ensures panel in old(pending) && tx.open ==>
        delivered == old(delivered) + Flushed(tx.channel, old(pending)[panel])
        && pending == old(pending) - {panel}
      ensures panel in old(pending) && !tx.open ==>
        delivered == old(delivered)
        && pending == (if old(pending)[panel] == [] then old(pending) - {panel}
                       else old(pending)[panel := old(pending)[panel][1..]])
    {
      senders := senders[panel := tx];
      if panel in pending {
        var queue := pending[panel];
        ghost var all := queue;
        pending := pending - {panel};
        var sentSoFar := 0;
        while queue != []
          invariant sentSoFar <= |all| && queue == all[sentSoFar..]
          invariant tx.open ==> delivered == old(delivered) + Flushed(tx.channel, all[..sentSoFar])
          invariant !tx.open ==> sentSoFar == 0 && delivered == old(delivered)
          invariant pending == old(pending) - {panel}
          invariant senders == old(senders)[panel := tx]
          decreases |queue|
        {
          var frame := queue[0];
          queue := queue[1..];
          if !tx.open {
            pending := pending[panel := queue];
            return;
          }
          FlushedSnoc(tx.channel, all[..sentSoFar], frame);
          assert all[..sentSoFar + 1] == all[..sentSoFar] + [frame];
          delivered := delivered + [FrameDelivery(tx.channel, frame)];
          sentSoFar := sentSoFar + 1;
        }
        assert all[..sentSoFar] == all;
      }
    }

    /** `unregister_panel_channel`: every trace of the panel goes. */
    method UnregisterPanelChannel(panel: int)
      modifies this`senders, this`pending, this`events
      ensures senders == old(senders) - {panel}
      ensures pending == old(pending) - {panel}
      ensures events == old(events) - {panel}
    {
      senders, pending, events := senders - {panel}, pending - {panel}, events - {panel};
    }

    /** `queue_event`. */
    method QueueEvent(panel: int, event: RedwoodEvent)
      modifies this`events
      ensures events == old(events)[panel := EventsOf(old(events), panel) + [event]]
    {
      events := events[panel := EventsOf(events, panel) + [event]];
    }

    /** `drain_events`: every queued event, oldest first; the queue is gone. */
    method DrainEvents(panel: int) returns (drained: seq<RedwoodEvent>)
      modifies this`events
      ensures drained == EventsOf(old(events), panel)
      ensures events == old(events) - {panel}
    {
      drained := EventsOf(events, panel);
      events := events - {panel};
    }

    method EmitButtonClick(panel: int, node: int)
      modifies this`events
      ensures events == old(events)[panel := EventsOf(old(events), panel) + [RedwoodEvent(node, WidgetButton, EventButtonOnClick, [])]]
    {
      QueueEvent(panel, RedwoodEvent(node, WidgetButton, EventButtonOnClick, []));
    }

    /** The toggle reports through the button's widget tag. */
    method EmitToggleChange(panel: int, node: int, checked: bool)
      modifies this`events
      ensures events == old(events)[panel := EventsOf(old(events), panel)
        + [RedwoodEvent(node, WidgetButton, EventToggleOnChange, [if checked then "true" else "false"])]]
    {
      QueueEvent(panel, RedwoodEvent(node, WidgetButton, EventToggleOnChange, [if checked then "true" else "false"]));
    }

    /** `encoded` is the value as a JSON string literal. */
    method EmitTextChange(panel: int, node: int, encoded: string)
      modifies this`events
      ensures events == old(events)[panel := EventsOf(old(events), panel)
        + [RedwoodEvent(node, WidgetTextInput, EventTextInputOnChange, [encoded])]]
    {
      QueueEvent(panel, RedwoodEvent(node, WidgetTextInput, EventTextInputOnChange, [encoded]));
    }

    /**
     * A menu selection reports through the button's widget tag and the
     * image-click event tag; `encoded` is the item id as a JSON string.
     */
    method EmitMenuSelect(panel: int, node: int, encoded: string)
      modifies this`events
      ensures events == old(events)[panel := EventsOf(old(events), panel)
        + [RedwoodEvent(node, WidgetButton, EventImageOnClick, [encoded])]]
    {
      QueueEvent(panel, RedwoodEvent(node, WidgetButton, EventImageOnClick, [encoded]));
    }
  }

  function EventsOf(events: map<int, seq<RedwoodEvent>>, panel: int): seq<RedwoodEvent> {
    if panel in events then events[panel] else []
  }

  /** A frame queued behind earlier ones is flushed after them. */
  lemma FlushedSnoc(channel: int, q: seq<FrameMessage>, f: FrameMessage)
    ensures Flushed(channel, q + [f]) == Flushed(channel, q) + [FrameDelivery(channel, f)]
  {
  }
}
