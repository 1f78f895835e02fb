// The retained view tree that embedding hosts drive directly: views keyed by
// id, each with a kind, a parent link, an ordered child list and visual
// properties, plus the id of the root view.
//
// The process-wide host behind its lock becomes one `RetainedHost` object
// whose `nodes` map and `root` the mutators reassign. Element rendering is
// not part of this model; the child order it paints in (`SortedByZ`) is.
module Retained {
  import opened Wrappers
  import opened ChildLists
  import GpuiStyle

  /** A view's kind, parsed from the type name the host sends. */
  datatype NodeKind =
    | RootView | View | Paragraph | Text | RawText | Image | ScrollView
    | Pressable | SafeAreaView | Switch | TextInput
    | Other(name: string)

  datatype Rgba = Rgba(r: bv8, g: bv8, b: bv8, a: bv8)

  datatype BorderStyle = Solid | Dashed

  datatype TextAlign = AlignLeft | AlignCenter | AlignRight

  datatype TextEllipsizeMode = Clip | Head | Middle | Tail

  datatype LayoutFrame = LayoutFrame(x: real, y: real, w: real, h: real)

  /** Optional per-edge values (top, right, bottom, left). */
  datatype EdgeValues<T> = EdgeValues(top: Option<T>, right: Option<T>, bottom: Option<T>, left: Option<T>)
  {
    predicate IsEmpty() {
      top.None? && right.None? && bottom.None? && left.None?
    }
  }

  /** Optional per-corner values (top-left, top-right, bottom-right, bottom-left). */
  datatype CornerValues<T> = CornerValues(topLeft: Option<T>, topRight: Option<T>, bottomRight: Option<T>, bottomLeft: Option<T>)
  {
    predicate IsEmpty() {
      topLeft.None? && topRight.None? && bottomRight.None? && bottomLeft.None?
    }
  }

  function NoEdges<T>(): EdgeValues<T> { EdgeValues(None, None, None, None) }

  function NoCorners<T>(): CornerValues<T> { CornerValues(None, None, None, None) }

  /**
   * Uniform and per-edge border parts; a node stores one only while some
   * part is set.
   */
  datatype BorderVisual = BorderVisual(
    uniformRadius: Option<real>,
    uniformWidth: Option<real>,
    uniformColor: Option<Rgba>,
    uniformStyle: Option<BorderStyle>,
    widths: EdgeValues<real>,
    colors: EdgeValues<Rgba>,
    styles: EdgeValues<BorderStyle>,
    cornerRadii: CornerValues<real>)
  {
    predicate IsEffectivelyEmpty() {
      && uniformRadius.None? && uniformWidth.None? && uniformColor.None? && uniformStyle.None?
      && widths.IsEmpty() && colors.IsEmpty() && styles.IsEmpty() && cornerRadii.IsEmpty()
    }
  }

  const DefaultBorder := BorderVisual(None, None, None, None, NoEdges(), NoEdges(), NoEdges(), NoCorners())

  datatype ShadowStyle = ShadowStyle(color: Rgba, ox: real, oy: real, blur: real)

  /**
   * Text attributes; the public props record has the same fields and
   * converts field by field.
   */
  datatype TextStyle = TextStyle(
    fontSize: Option<real>,
    color: Option<Rgba>,
    fontFamily: Option<string>,
    fontWeight: Option<real>,
    textAlign: Option<TextAlign>,
    lineHeight: Option<real>,
    maxLines: Option<nat>,
    ellipsizeMode: Option<TextEllipsizeMode>,
    wrap: Option<bool>)
  {
    predicate IsEmpty() {
      && fontSize.None? && color.None? && fontFamily.None? && fontWeight.None? && textAlign.None?
      && lineHeight.None? && maxLines.None? && ellipsizeMode.None? && wrap.None?
    }
  }

  datatype TransformStyle = TransformStyle(tx: real, ty: real, sx: real, sy: real, rot: real, ox: real, oy: real)

  datatype ScrollState = ScrollState(offsetX: real, offsetY: real, contentWidth: real, contentHeight: real)

  datatype ScrollContentStyle = ScrollContentStyle(
    padding: EdgeValues<real>,
    alignItems: Option<GpuiStyle.AlignItems>,
    justifyContent: Option<GpuiStyle.JustifyContent>)
  {
    predicate IsEmpty() {
      padding.IsEmpty() && alignItems.None? && justifyContent.None?
    }
  }

  datatype NodeView = NodeView(
    id: int,
    kind: NodeKind,
    parent: Option<int>,
    children: seq<int>,
    layout: Option<LayoutFrame>,
    bg: Option<Rgba>,
    opacity: Option<real>,
    border: Option<BorderVisual>,
    shadow: Option<ShadowStyle>,
    transform: Option<TransformStyle>,
    text: Option<string>,
    textStyle: Option<TextStyle>,
    scroll: Option<ScrollState>,
    imageUri: Option<string>,
    clip: bool,
    zIndex: Option<int>,
    contentStyle: Option<ScrollContentStyle>,
    switchChecked: Option<bool>,
    switchDisabled: Option<bool>,
    inputPlaceholder: Option<string>,
    inputEditable: Option<bool>)

  /** A node with nothing set but its id and kind. */
  function NewNode(id: int, kind: NodeKind): (n: NodeView)
    ensures n.id == id && n.kind == kind && n.parent.None? && n.children == []
    ensures n.border.None? && n.textStyle.None? && n.contentStyle.None? && !n.clip
  {
    NodeView(id, kind, None, [], None, None, None, None, None, None, None, None, None, None,
             false, None, None, None, None, None, None)
  }

  // ---------------------------------------------------------------- kinds

  /** The type name each known kind is created from; `Other` keeps its own. */
  function KindName(k: NodeKind): string
  {
    match k
    case RootView => "RootView"
    case View => "View"
    case Paragraph => "Paragraph"
    case Text => "Text"
    case RawText => "RawText"
    case Image => "Image"
    case ScrollView => "ScrollView"
    case Pressable => "Pressable"
    case SafeAreaView => "SafeAreaView"
    case Switch => "Switch"
    case TextInput => "TextInput"
    case Other(name) => name
  }

  /**
   * Parses an optional type name: the eleven known names give their
   * kind, any other name is kept as `Other`, and no name is `Other("")`.
   */
  function ParseKind(ty: Option<string>): (k: NodeKind)
    ensures ty.None? ==> k == Other("")
    ensures ty.Some? ==> KindName(k) == ty.value
    ensures ty.Some? && k.Other? ==> ParseKind(Some(KindName(k))) == k
  {
    match ty
    case None => Other("")
    case Some(name) =>
      if name == "RootView" then RootView
      else if name == "View" then View
      else if name == "Paragraph" then Paragraph
      else if name == "Text" then Text
      else if name == "RawText" then RawText
      else if name == "ScrollView" then ScrollView
      else if name == "Image" then Image
      else if name == "Pressable" then Pressable
      else if name == "SafeAreaView" then SafeAreaView
      else if name == "Switch" then Switch
      else if name == "TextInput" then TextInput
      else Other(name)
  }

  /** Every known kind is parsed back from its name. */
  lemma KindRoundTrip(k: NodeKind)
    requires !k.Other?
    ensures ParseKind(Some(KindName(k))) == k
  {
  }

  // ---------------------------------------------------------- z ordering

  /** A child's paint-order key: its z-index, 0 when unset or missing. */
  function Z(nodes: map<int, NodeView>, id: int): int {
    if id in nodes && nodes[id].zIndex.Some? then nodes[id].zIndex.value else 0
  }

  /** Places `x` before the first element whose key is not greater. */
  function InsertByZ(nodes: map<int, NodeView>, x: int, l: seq<int>): seq<int> {
    if l == [] || Z(nodes, l[0]) <= Z(nodes, x) then [x] + l
    else [l[0]] + InsertByZ(nodes, x, l[1..])
  }

  /** The children in paint order: z-index descending, ties in list order. */
  function SortedByZ(nodes: map<int, NodeView>, s: seq<int>): seq<int> {
    if s == [] then [] else InsertByZ(nodes, s[0], SortedByZ(nodes, s[1..]))
  }

  predicate DescendingZ(nodes: map<int, NodeView>, s: seq<int>) {
    forall i, j :: 0 <= i < j < |s| ==> Z(nodes, s[i]) >= Z(nodes, s[j])
  }

  /** The elements of `s` whose key is `z`, in order. */
  function WithZ(nodes: map<int, NodeView>, s: seq<int>, z: int): seq<int> {
    if s == [] then []
    else (if Z(nodes, s[0]) == z then [s[0]] else []) + WithZ(nodes, s[1..], z)
  }

  lemma {:induction false} InsertByZPermutes(nodes: map<int, NodeView>, x: int, l: seq<int>)
    ensures multiset(InsertByZ(nodes, x, l)) == multiset(l) + multiset{x}
  {
    if !(l == [] || Z(nodes, l[0]) <= Z(nodes, x)) {
      InsertByZPermutes(nodes, x, l[1..]);
      assert l == [l[0]] + l[1..];
    }
  }

  /** Inserting keeps every key at or below a bound both sides respect. */
  lemma {:induction false} InsertByZBelow(nodes: map<int, NodeView>, x: int, l: seq<int>, bound: int)
    requires Z(nodes, x) <= bound
    requires forall k | 0 <= k < |l| :: Z(nodes, l[k]) <= bound
    ensures forall k | 0 <= k < |InsertByZ(nodes, x, l)| :: Z(nodes, InsertByZ(nodes, x, l)[k]) <= bound
  {
    var r := InsertByZ(nodes, x, l);
    if l == [] || Z(nodes, l[0]) <= Z(nodes, x) {
      assert forall k | 0 < k < |r| :: r[k] == l[k - 1];
    } else {
      InsertByZBelow(nodes, x, l[1..], bound);
      assert forall k | 0 < k < |r| :: r[k] == InsertByZ(nodes, x, l[1..])[k - 1];
    }
  }

  lemma {:induction false} InsertByZDescending(nodes: map<int, NodeView>, x: int, l: seq<int>)
    requires DescendingZ(nodes, l)
    ensures DescendingZ(nodes, InsertByZ(nodes, x, l))
  {
    var r := InsertByZ(nodes, x, l);
    if l == [] || Z(nodes, l[0]) <= Z(nodes, x) {
      assert forall k | 0 < k < |r| :: r[k] == l[k - 1];
    } else {
      var t := InsertByZ(nodes, x, l[1..]);
      assert DescendingZ(nodes, l[1..]) by {
        assert forall k | 0 <= k < |l[1..]| :: l[1..][k] == l[k + 1];
      }
      InsertByZDescending(nodes, x, l[1..]);
      InsertByZBelow(nodes, x, l[1..], Z(nodes, l[0]));
      assert forall k | 0 < k < |r| :: r[k] == t[k - 1];
    }
  }

  lemma {:induction false} InsertByZStable(nodes: map<int, NodeView>, x: int, l: seq<int>, z: int)
    ensures WithZ(nodes, InsertByZ(nodes, x, l), z) == (if Z(nodes, x) == z then [x] else []) + WithZ(nodes, l, z)
  {
    var r := InsertByZ(nodes, x, l);
    if l == [] || Z(nodes, l[0]) <= Z(nodes, x) {
      assert r[1..] == l;
    } else {
      InsertByZStable(nodes, x, l[1..], z);
      assert r[1..] == InsertByZ(nodes, x, l[1..]);
    }
  }

  /**
   * The paint order is a permutation of the child list, ordered by
   * z-index descending.
   */
  lemma {:induction false} SortedByZOrders(nodes: map<int, NodeView>, s: seq<int>)
    ensures multiset(SortedByZ(nodes, s)) == multiset(s)
    ensures DescendingZ(nodes, SortedByZ(nodes, s))
  {
    if s != [] {
      SortedByZOrders(nodes, s[1..]);
      InsertByZPermutes(nodes, s[0], SortedByZ(nodes, s[1..]));
      InsertByZDescending(nodes, s[0], SortedByZ(nodes, s[1..]));
      assert s == [s[0]] + s[1..];
    }
  }

  /** Children with equal z-index keep their list order: the sort is stable. */
  lemma {:induction false} SortedByZStable(nodes: map<int, NodeView>, s: seq<int>, z: int)
    ensures WithZ(nodes, SortedByZ(nodes, s), z) == WithZ(nodes, s, z)
  {
    if s != [] {
      SortedByZStable(nodes, s[1..], z);
      InsertByZStable(nodes, s[0], SortedByZ(nodes, s[1..]), z);
    }
  }

  // ---------------------------------------------------- optional styles

  /** A border is stored only while some part of it is set. */
  function StoredBorder(b: BorderVisual): (r: Option<BorderVisual>)
    ensures r.None? <==> b.IsEffectivelyEmpty()
    ensures r.Some? ==> r.value == b
  {
    if b.IsEffectivelyEmpty() then None else Some(b)
  }

  /** A width or radius is kept only when positive. */
  function Positive(x: real): (r: Option<real>)
    ensures r.Some? <==> x > 0.0
    ensures r.Some? ==> r.value == x
  {
    if x > 0.0 then Some(x) else None
  }

  /** The border a node has, or the empty one. */
  function BorderOf(n: NodeView): BorderVisual {
    if n.border.Some? then n.border.value else DefaultBorder
  }

  function EdgesOf<T>(values: seq<Option<T>>): EdgeValues<T>
    requires |values| == 4
  {
    EdgeValues(values[0], values[1], values[2], values[3])
  }

  /** A text style is kept only when some attribute is set. */
  function KeptTextStyle(style: Option<TextStyle>): (r: Option<TextStyle>)
    ensures r.Some? <==> style.Some? && !style.value.IsEmpty()
    ensures r.Some? ==> r == style
  {
    if style.Some? && !style.value.IsEmpty() then style else None
  }

  /** A scroll content style is stored only while something is set. */
  function StoredContentStyle(style: ScrollContentStyle): (r: Option<ScrollContentStyle>)
    ensures r.None? <==> style.IsEmpty()
    ensures r.Some? ==> r.value == style
  {
    if style.IsEmpty() then None else Some(style)
  }

  /**
   * What every stored node satisfies: it is filed under its own id, its
   * child list has no duplicates, and no optional style is stored empty.
   */
  predicate NodeOk(id: int, n: NodeView) {
    && n.id == id
    && NoDuplicates(n.children)
    && (n.border.Some? ==> !n.border.value.IsEffectivelyEmpty())
    && (n.textStyle.Some? ==> !n.textStyle.value.IsEmpty())
    && (n.contentStyle.Some? ==> !n.contentStyle.value.IsEmpty())
  }

  /** The parent a stored view records, if any. */
  function ParentOf(nodes: map<int, NodeView>, id: int): Option<int> {
    if id in nodes then nodes[id].parent else None
  }

  class RetainedHost {
    var nodes: map<int, NodeView>
    var root: Option<int>

    ghost predicate Valid()
      reads this
    {
      && (forall id | id in nodes :: NodeOk(id, nodes[id]))
      && (root.Some? ==> root.value in nodes)
    }

    constructor ()
      ensures Valid() && nodes == map[] && root == None
    {
      nodes := map[];
      root := None;
    }

    /**
     * Creates (or replaces) the view `id` with the parsed kind; a root
     * view becomes the root.
     */
    method CreateView(id: int, ty: Option<string>)
      requires Valid()
      modifies this
      ensures Valid()
      ensures nodes == old(nodes)[id := NewNode(id, ParseKind(ty))]
      ensures root == if ParseKind(ty) == RootView then Some(id) else old(root)
    {
      var n := NewNode(id, ParseKind(ty));
      if n.kind == RootView {
        root := Some(id);
      }
      nodes := nodes[id := n];
    }

    /**
     * Deletes the view `id`: drops it from its recorded parent's child
     * list, removes it, and clears the root if it was the root.
     */
    method DeleteView(id: int)
      requires Valid()
      modifies this
      ensures Valid()
      ensures id !in nodes && nodes.Keys == old(nodes).Keys - {id}
      ensures forall k | k in nodes && ParentOf(old(nodes), id) != Some(k) :: nodes[k] == old(nodes)[k]
      ensures ParentOf(old(nodes), id).Some? && ParentOf(old(nodes), id).value in nodes ==>
        var p := ParentOf(old(nodes), id).value;
        nodes[p] == old(nodes)[p].(children := Without(old(nodes)[p].children, id))
      ensures root == if old(root) == Some(id) then None else old(root)
    {
      if id in nodes && nodes[id].parent.Some? {
        var parent := nodes[id].parent.value;
        if parent in nodes {
          var p := nodes[parent];
          WithoutNoDuplicates(p.children, id);
          Update(parent, p.(children := Without(p.children, id)));
        }
      }
      nodes := nodes - {id};
      if root == Some(id) {
        root := None;
      }
    }

    /**
     * Inserts `child` into `parent`'s list at `index` clamped to its length,
     * never twice, and points an existing child at the parent. Nothing
     * happens when the parent is missing.
     */
    method InsertChild(parent: int, child: int, index: nat)
      requires Valid()
      modifies this
      ensures Valid() && root == old(root) && nodes.Keys == old(nodes).Keys
      ensures parent !in old(nodes) ==> nodes == old(nodes)
      ensures parent in old(nodes) ==>
        nodes[parent].children == InsertedChildren(old(nodes)[parent].children, child, index)
      ensures parent in old(nodes) && child in old(nodes) ==> nodes[child].parent == Some(parent)
      ensures forall k | k in nodes && k != parent && k != child :: nodes[k] == old(nodes)[k]
      ensures child in nodes && child != parent ==>
        nodes[child] == if parent in old(nodes) then old(nodes)[child].(parent := Some(parent)) else old(nodes)[child]
      ensures parent in nodes && child != parent ==>
        nodes[parent] == old(nodes)[parent].(children := InsertedChildren(old(nodes)[parent].children, child, index))
    {
      if parent in nodes {
        var p := nodes[parent];
        Update(parent, p.(children := InsertedChildren(p.children, child, index)));
        if child in nodes {
          Update(child, nodes[child].(parent := Some(parent)));
        }
      }
    }

    /**
     * Removes every occurrence of `child` from `parent`'s list and clears
     * the child's parent link, whichever parent it recorded.
     */
    method RemoveChild(parent: int, child: int)
      requires Valid()
      modifies this
      ensures Valid() && root == old(root) && nodes.Keys == old(nodes).Keys
      ensures parent in nodes ==> child !in nodes[parent].children
      ensures child in nodes ==> nodes[child].parent.None?
      ensures forall k | k in nodes && k != parent && k != child :: nodes[k] == old(nodes)[k]
      ensures parent in nodes && parent != child ==>
        nodes[parent] == old(nodes)[parent].(children := Without(old(nodes)[parent].children, child))
      ensures child in nodes && parent != child ==> nodes[child] == old(nodes)[child].(parent := None)
    {
      if parent in nodes {
        var p := nodes[parent];
        WithoutNoDuplicates(p.children, child);
        Update(parent, p.(children := Without(p.children, child)));
      }
      if child in nodes {
        Update(child, nodes[child].(parent := None));
      }
    }

    /**
     * Replaces node `id` by `n` when it exists; the shared shape of the
     * setters below.
     */
    method Update(id: int, n: NodeView)
      requires Valid() && (id in nodes ==> NodeOk(id, n))
      modifies this
      ensures Valid() && root == old(root)
      ensures nodes == if id in old(nodes) then old(nodes)[id := n] else old(nodes)
    {
      if id in nodes {
        nodes := nodes[id := n];
      }
    }

    method SetLayout(id: int, x: real, y: real, w: real, h: real)
      requires Valid()
      modifies this
      ensures Valid() && root == old(root)
      ensures nodes == if id in old(nodes) then old(nodes)[id := old(nodes)[id].(layout := Some(LayoutFrame(x, y, w, h)))] else old(nodes)
    {
      if id in nodes {
        Update(id, nodes[id].(layout := Some(LayoutFrame(x, y, w, h))));
      }
    }

    method SetBackground(id: int, color: Option<Rgba>)
      requires Valid()
      modifies this
      ensures Valid() && root == old(root)
      ensures nodes == if id in old(nodes) then old(nodes)[id := old(nodes)[id].(bg := color)] else old(nodes)
    {
      if id in nodes {
        Update(id, nodes[id].(bg := color));
      }
    }

    method SetOpacity(id: int, opacity: Option<real>)
      requires Valid()
      modifies this
      ensures Valid() && root == old(root)
      ensures nodes == if id in old(nodes) then old(nodes)[id := old(nodes)[id].(opacity := opacity)] else old(nodes)
    {
      if id in nodes {
        Update(id, nodes[id].(opacity := opacity));
      }
    }

    /**
     * Sets the uniform width, color and radius; a width or radius that is
     * not positive is stored as unset, and an empty border as none.
     */
    method SetBorder(id: int, width: real, color: Option<Rgba>, radius: real)
      requires Valid()
      modifies this
      ensures Valid() && root == old(root)
      ensures nodes == if id in old(nodes) then
        old(nodes)[id := old(nodes)[id].(border := StoredBorder(BorderOf(old(nodes)[id]).(
          uniformRadius := Positive(radius), uniformColor := color, uniformWidth := Positive(width))))]
        else old(nodes)
    {
      if id in nodes {
        var b := BorderOf(nodes[id]).(uniformRadius := Positive(radius), uniformColor := color, uniformWidth := Positive(width));
        Update(id, nodes[id].(border := StoredBorder(b)));
      }
    }

    method SetBorderStyle(id: int, style: Option<BorderStyle>)
      requires Valid()
      modifies this
      ensures Valid() && root == old(root)
      ensures nodes == if id in old(nodes) then
        old(nodes)[id := old(nodes)[id].(border := StoredBorder(BorderOf(old(nodes)[id]).(uniformStyle := style)))]
        else old(nodes)
    {
      if id in nodes {
        Update(id, nodes[id].(border := StoredBorder(BorderOf(nodes[id]).(uniformStyle := style))));
      }
    }

    /** Per-edge widths in the order top, right, bottom, left. */
    method SetBorderEdgeWidths(id: int, widths: seq<Option<real>>)
      requires Valid() && |widths| == 4
      modifies this
      ensures Valid() && root == old(root)
      ensures nodes == if id in old(nodes) then
        old(nodes)[id := old(nodes)[id].(border := StoredBorder(BorderOf(old(nodes)[id]).(widths := EdgesOf(widths))))]
        else old(nodes)
    {
      if id in nodes {
        Update(id, nodes[id].(border := StoredBorder(BorderOf(nodes[id]).(widths := EdgesOf(widths)))));
      }
    }

    method SetBorderEdgeColors(id: int, colors: seq<Option<Rgba>>)
      requires Valid() && |colors| == 4
      modifies this
      ensures Valid() && root == old(root)
      ensures nodes == if id in old(nodes) then
        old(nodes)[id := old(nodes)[id].(border := StoredBorder(BorderOf(old(nodes)[id]).(colors := EdgesOf(colors))))]
        else old(nodes)
    {
      if id in nodes {
        Update(id, nodes[id].(border := StoredBorder(BorderOf(nodes[id]).(colors := EdgesOf(colors)))));
      }
    }

    method SetBorderEdgeStyles(id: int, styles: seq<Option<BorderStyle>>)
      requires Valid() && |styles| == 4
      modifies this
      ensures Valid() && root == old(root)
      ensures nodes == if id in old(nodes) then
        old(nodes)[id := old(nodes)[id].(border := StoredBorder(BorderOf(old(nodes)[id]).(styles := EdgesOf(styles))))]
        else old(nodes)
    {
      if id in nodes {
        Update(id, nodes[id].(border := StoredBorder(BorderOf(nodes[id]).(styles := EdgesOf(styles)))));
      }
    }

    /**
     * Per-corner radii in the order top-left, top-right, bottom-right,
     * bottom-left.
     */
    method SetBorderCornerRadii(id: int, radii: seq<Option<real>>)
      requires Valid() && |radii| == 4
      modifies this
      ensures Valid() && root == old(root)
      ensures nodes == if id in old(nodes) then
        old(nodes)[id := old(nodes)[id].(border := StoredBorder(BorderOf(old(nodes)[id]).(
          cornerRadii := CornerValues(radii[0], radii[1], radii[2], radii[3]))))]
        else old(nodes)
    {
      if id in nodes {
        var corners := CornerValues(radii[0], radii[1], radii[2], radii[3]);
        Update(id, nodes[id].(border := StoredBorder(BorderOf(nodes[id]).(cornerRadii := corners))));
      }
    }

    method SetShadow(id: int, color: Rgba, ox: real, oy: real, blur: real)
      requires Valid()
      modifies this
      ensures Valid() && root == old(root)
      ensures nodes == if id in old(nodes) then old(nodes)[id := old(nodes)[id].(shadow := Some(ShadowStyle(color, ox, oy, blur)))] else old(nodes)
    {
      if id in nodes {
        Update(id, nodes[id].(shadow := Some(ShadowStyle(color, ox, oy, blur))));
      }
    }

    method SetClip(id: int, clip: bool)
      requires Valid()
      modifies this
      ensures Valid() && root == old(root)
      ensures nodes == if id in old(nodes) then old(nodes)[id := old(nodes)[id].(clip := clip)] else old(nodes)
    {
      if id in nodes {
        Update(id, nodes[id].(clip := clip));
      }
    }

    /**
     * Padding (top, right, bottom, left) and alignment of a scroll view's
     * content; an empty style is stored as none.
     */
    method SetScrollContentStyle(id: int, padding: seq<Option<real>>,
                                 alignItems: Option<GpuiStyle.AlignItems>,
                                 justifyContent: Option<GpuiStyle.JustifyContent>)
      requires Valid() && |padding| == 4
      modifies this
      ensures Valid() && root == old(root)
      ensures nodes == if id in old(nodes) then
        old(nodes)[id := old(nodes)[id].(contentStyle := StoredContentStyle(ScrollContentStyle(EdgesOf(padding), alignItems, justifyContent)))]
        else old(nodes)
    {
      if id in nodes {
        var style := ScrollContentStyle(EdgesOf(padding), alignItems, justifyContent);
        Update(id, nodes[id].(contentStyle := StoredContentStyle(style)));
      }
    }

    method SetTransform(id: int, t: TransformStyle)
      requires Valid()
      modifies this
      ensures Valid() && root == old(root)
      ensures nodes == if id in old(nodes) then old(nodes)[id := old(nodes)[id].(transform := Some(t))] else old(nodes)
    {
      if id in nodes {
        Update(id, nodes[id].(transform := Some(t)));
      }
    }

    method SetZIndex(id: int, zIndex: Option<int>)
      requires Valid()
      modifies this
      ensures Valid() && root == old(root)
      ensures nodes == if id in old(nodes) then old(nodes)[id := old(nodes)[id].(zIndex := zIndex)] else old(nodes)
    {
      if id in nodes {
        Update(id, nodes[id].(zIndex := zIndex));
      }
    }

    /** Sets the text and keeps the style only when some attribute is set. */
    method SetText(id: int, text: Option<string>, style: Option<TextStyle>)
      requires Valid()
      modifies this
      ensures Valid() && root == old(root)
      ensures nodes == if id in old(nodes) then
        old(nodes)[id := old(nodes)[id].(text := text, textStyle := KeptTextStyle(style))]
        else old(nodes)
    {
      if id in nodes {
        Update(id, nodes[id].(text := text, textStyle := KeptTextStyle(style)));
      }
    }

    method SetScroll(id: int, offsetX: real, offsetY: real, contentWidth: real, contentHeight: real)
      requires Valid()
      modifies this
      ensures Valid() && root == old(root)
      ensures nodes == if id in old(nodes) then
        old(nodes)[id := old(nodes)[id].(scroll := Some(ScrollState(offsetX, offsetY, contentWidth, contentHeight)))]
        else old(nodes)
    {
      if id in nodes {
        Update(id, nodes[id].(scroll := Some(ScrollState(offsetX, offsetY, contentWidth, contentHeight))));
      }
    }

    method SetImageUri(id: int, uri: Option<string>)
      requires Valid()
      modifies this
      ensures Valid() && root == old(root)
      ensures nodes == if id in old(nodes) then old(nodes)[id := old(nodes)[id].(imageUri := uri)] else old(nodes)
    {
      if id in nodes {
        Update(id, nodes[id].(imageUri := uri));
      }
    }

    method SetSwitchChecked(id: int, checked: bool)
      requires Valid()
      modifies this
      ensures Valid() && root == old(root)
      ensures nodes == if id in old(nodes) then old(nodes)[id := old(nodes)[id].(switchChecked := Some(checked))] else old(nodes)
    {
      if id in nodes {
        Update(id, nodes[id].(switchChecked := Some(checked)));
      }
    }

    method SetSwitchDisabled(id: int, disabled: bool)
      requires Valid()
      modifies this
      ensures Valid() && root == old(root)
      ensures nodes == if id in old(nodes) then old(nodes)[id := old(nodes)[id].(switchDisabled := Some(disabled))] else old(nodes)
    {
      if id in nodes {
        Update(id, nodes[id].(switchDisabled := Some(disabled)));
      }
    }

    method SetInputPlaceholder(id: int, placeholder: Option<string>)
      requires Valid()
      modifies this
      ensures Valid() && root == old(root)
      ensures nodes == if id in old(nodes) then old(nodes)[id := old(nodes)[id].(inputPlaceholder := placeholder)] else old(nodes)
    {
      if id in nodes {
        Update(id, nodes[id].(inputPlaceholder := placeholder));
      }
    }

    method SetInputEditable(id: int, editable: bool)
      requires Valid()
      modifies this
      ensures Valid() && root == old(root)
      ensures nodes == if id in old(nodes) then old(nodes)[id := old(nodes)[id].(inputEditable := Some(editable))] else old(nodes)
    {
      if id in nodes {
        Update(id, nodes[id].(inputEditable := Some(editable)));
      }
    }

    /** Whether a root view is set; the root, when set, is a stored view. */
    method HasRoot() returns (b: bool)
      requires Valid()
      ensures b <==> root.Some?
      ensures b ==> root.value in nodes
    {
      b := root.Some?;
    }

    /** The ids of `id`'s children in paint order. */
    method SortedChildren(id: int) returns (ids: seq<int>)
      requires id in nodes
      ensures multiset(ids) == multiset(nodes[id].children)
      ensures DescendingZ(nodes, ids)
      ensures forall z :: WithZ(nodes, ids, z) == WithZ(nodes, nodes[id].children, z)
    {
      ids := SortedByZ(nodes, nodes[id].children);
      SortedByZOrders(nodes, nodes[id].children);
      forall z ensures WithZ(nodes, ids, z) == WithZ(nodes, nodes[id].children, z) {
        SortedByZStable(nodes, nodes[id].children, z);
      }
    }
  }
}
