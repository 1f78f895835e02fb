// The Redwood preview view: a tree of text, button, image, row and column
// nodes that the bridge's commands build, and the ids it draws at the top.
//
// The view's maps and root list become fields of a `RedwoodPreviewView`
// object; the commands waiting on its channel are a parameter of `Render`.
// Drawing itself is not part of this model; which ids are drawn at the top
// level is.
module RedwoodPreview {
  import opened Wrappers
  import opened ChildLists
  import RB = RedwoodBridge

  datatype Node =
    | TextNode(text: string)
    | ButtonNode(text: string, enabled: bool)
    | ImageNode(url: string)
    | RowNode
    | ColumnNode

  function KindOfNode(n: Node): RB.NodeKind {
    match n
    case TextNode(_) => RB.Text
    case ButtonNode(_, _) => RB.Button
    case ImageNode(_) => RB.Image
    case RowNode => RB.Row
    case ColumnNode => RB.Column
  }

  /** Every field holds its type's default. */
  predicate HasDefaults(n: Node) {
    match n
    case TextNode(text) => text == ""
    case ButtonNode(text, enabled) => text == "" && !enabled
    case ImageNode(url) => url == ""
    case _ => true
  }

  /** A freshly created node of the given kind. */
  function NewNode(kind: RB.NodeKind): (n: Node)
    ensures KindOfNode(n) == kind && HasDefaults(n)
  {
    match kind
    case Text => TextNode("")
    case Button => ButtonNode("", false)
    case Image => ImageNode("")
    case Row => RowNode
    case Column => ColumnNode
  }

  datatype Tree = Tree(nodes: map<int, Node>, children: Lists, roots: seq<int>)

  /** A parent's list, empty when it has none (`entry(..).or_default()`). */
  function ListOf(children: Lists, parent: int): seq<int> {
    if parent in children then children[parent] else []
  }

  // ------------------------------------------------------- one command each

  /** Create: the node is (re)placed; its child list is made only if absent. */
  function Created(t: Tree, h: int, kind: RB.NodeKind): (r: Tree)
    ensures r.nodes.Keys == t.nodes.Keys + {h}
    ensures KindOfNode(r.nodes[h]) == kind && HasDefaults(r.nodes[h])
    ensures forall k | k in t.nodes && k != h :: r.nodes[k] == t.nodes[k]
    ensures h in r.children && r.children[h] == ListOf(t.children, h)
    ensures forall p | p != h :: (p in r.children <==> p in t.children)
    ensures forall p | p in t.children :: r.children[p] == t.children[p]
    ensures r.roots == t.roots
  {
    t.(nodes := t.nodes[h := NewNode(kind)],
       children := if h in t.children then t.children else t.children[h := []])
  }

  /**
   * Destroy: the node and its own list go, and the handle leaves every
   * other list and the roots.
   */
  function Destroyed(t: Tree, h: int): (r: Tree)
    ensures r.nodes == t.nodes - {h}
    ensures r.children.Keys == t.children.Keys - {h}
    ensures h !in Listed(r.children) && h !in r.roots
    ensures forall p | p in r.children :: multiset(r.children[p]) == multiset(t.children[p])[h := 0]
    ensures multiset(r.roots) == multiset(t.roots)[h := 0]
  {
    WithoutNoDuplicates(t.roots, h);
    Tree(t.nodes - {h}, WithoutEverywhere(t.children - {h}, h), Without(t.roots, h))
  }

  /**
   * AppendChild: the child goes at the end of the parent's list even when
   * already there, and its first occurrence leaves the roots.
   */
  function Appended(t: Tree, parent: int, child: int): (r: Tree)
    ensures parent in r.children && r.children[parent] == ListOf(t.children, parent) + [child]
    ensures multiset(r.children[parent])[child] == multiset(ListOf(t.children, parent))[child] + 1
    ensures forall p | p != parent :: (p in r.children <==> p in t.children)
    ensures forall p | p in t.children && p != parent :: r.children[p] == t.children[p]
    ensures child in t.roots ==> multiset(r.roots) == multiset(t.roots) - multiset{child}
    ensures child !in t.roots ==> r.roots == t.roots
    ensures r.nodes == t.nodes
  {
    var l := ListOf(t.children, parent);
    assert multiset(l + [child]) == multiset(l) + multiset{child};
    t.(children := t.children[parent := l + [child]], roots := RemoveFirst(t.roots, child))
  }

  /**
   * InsertChild: a negative index counts as 0, one at or past the end
   * appends; the child's first occurrence leaves the roots.
   */
  function Inserted(t: Tree, parent: int, index: int, child: int): (r: Tree)
    ensures parent in r.children
    ensures var l := ListOf(t.children, parent);
      var at := if index < 0 then 0 else if index < |l| then index else |l|;
      && |r.children[parent]| == |l| + 1 && r.children[parent][at] == child
      && r.children[parent][..at] == l[..at] && r.children[parent][at + 1..] == l[at..]
    ensures forall p | p != parent :: (p in r.children <==> p in t.children)
    ensures forall p | p in t.children && p != parent :: r.children[p] == t.children[p]
    ensures child in t.roots ==> multiset(r.roots) == multiset(t.roots) - multiset{child}
    ensures child !in t.roots ==> r.roots == t.roots
    ensures r.nodes == t.nodes
  {
    t.(children := t.children[parent := InsertClamped(ListOf(t.children, parent), child, index)],
       roots := RemoveFirst(t.roots, child))
  }

  /**
   * RemoveChild: every occurrence leaves the parent's list, which is
   * created empty for an unknown parent.
   */
  function Removed(t: Tree, parent: int, child: int): (r: Tree)
    ensures parent in r.children && child !in r.children[parent]
    ensures multiset(r.children[parent]) == multiset(ListOf(t.children, parent))[child := 0]
    ensures forall p | p != parent :: (p in r.children <==> p in t.children)
    ensures forall p | p in t.children && p != parent :: r.children[p] == t.children[p]
    ensures r.nodes == t.nodes && r.roots == t.roots
  {
    WithoutNoDuplicates(ListOf(t.children, parent), child);
    t.(children := t.children[parent := Without(ListOf(t.children, parent), child)])
  }

  /**
   * A setter changes the node only when it is of the setter's variant;
   * fit and radius are accepted and ignored.
   */
  function Set(t: Tree, cmd: RB.Cmd): (r: Tree)
    requires cmd.SetText? || cmd.SetButtonText? || cmd.SetButtonEnabled?
          || cmd.SetImageUrl? || cmd.SetImageFit? || cmd.SetImageRadius?
    ensures r.children == t.children && r.roots == t.roots
    ensures r.nodes.Keys == t.nodes.Keys
    ensures forall k | k in t.nodes && k != cmd.handle :: r.nodes[k] == t.nodes[k]
    ensures cmd.handle in t.nodes ==> KindOfNode(r.nodes[cmd.handle]) == KindOfNode(t.nodes[cmd.handle])
    ensures !Targets(t, cmd) ==> r == t
  {
    if !Targets(t, cmd) then t
    else
      var n := t.nodes[cmd.handle];
      var updated :=
        match cmd
        case SetText(_, s) => TextNode(s)
        case SetButtonText(_, s) => n.(text := s)
        case SetButtonEnabled(_, e) => n.(enabled := e)
        case SetImageUrl(_, u) => ImageNode(u)
        case _ => n;
      t.(nodes := t.nodes[cmd.handle := updated])
  }

  /** The setter names an existing node of the variant it sets. */
  predicate Targets(t: Tree, cmd: RB.Cmd) {
    match cmd
    case SetText(h, _) => h in t.nodes && t.nodes[h].TextNode?
    case SetButtonText(h, _) => h in t.nodes && t.nodes[h].ButtonNode?
    case SetButtonEnabled(h, _) => h in t.nodes && t.nodes[h].ButtonNode?
    case SetImageUrl(h, _) => h in t.nodes && t.nodes[h].ImageNode?
    case _ => false
  }

  /** `apply_cmd`. */
  function Apply(t: Tree, cmd: RB.Cmd): Tree {
    match cmd
    case Create(h, kind) => Created(t, h, kind)
    case Destroy(h) => Destroyed(t, h)
    case AppendChild(p, c) => Appended(t, p, c)
    case InsertChild(p, i, c) => Inserted(t, p, i, c)
    case RemoveChild(p, c) => Removed(t, p, c)
    case _ => Set(t, cmd)
  }

  /** Every command in order. */
  function ApplyAll(t: Tree, cmds: seq<RB.Cmd>): Tree
    decreases |cmds|
  {
    if cmds == [] then t else ApplyAll(Apply(t, cmds[0]), cmds[1..])
  }

  // ------------------------------------------------------- properties

  /**
   * Destroy leaves no trace of the handle, and no other id loses its place
   * in any list.
   */
  lemma DestroyUnlistsOnlyTarget(t: Tree, h: int)
    ensures Listed(Apply(t, RB.Destroy(h)).children) == Listed(t.children - {h}) - {h}
  {
    ListedWithoutEverywhere(t.children - {h}, h);
  }

  /**
   * An insert index of 2^31 or more wraps to a negative `i32` on its way
   * through the bridge, so the child goes to the front of the list rather
   * than the end.
   */
  lemma WrappedIndexInsertsAtFront(t: Tree, parent: RB.U64, index: RB.U32, child: RB.U64)
    requires index >= 0x8000_0000
    ensures var r := Apply(t, RB.InsertChild(RB.AsI64(parent), RB.AsI32(index), RB.AsI64(child)));
      r.children[RB.AsI64(parent)][0] == RB.AsI64(child)
      && r.children[RB.AsI64(parent)][1..] == ListOf(t.children, RB.AsI64(parent))
  {
    var r := Apply(t, RB.InsertChild(RB.AsI64(parent), RB.AsI32(index), RB.AsI64(child)));
    assert RB.AsI32(index) < 0;
    assert r.children[RB.AsI64(parent)][0 + 1..] == ListOf(t.children, RB.AsI64(parent))[0..];
  }

  /**
   * A drawn tree with no duplicate roots keeps none after a create or
   * a child edit.
   */
  lemma RootsStayDistinct(t: Tree, cmd: RB.Cmd)
    requires NoDuplicates(t.roots)
    ensures NoDuplicates(Apply(t, cmd).roots)
  {
    match cmd
    case Destroy(h) =>
      WithoutNoDuplicates(t.roots, h);
    case AppendChild(_, c) =>
      RemoveFirstKeepsDistinct(t.roots, c);
    case InsertChild(_, _, c) =>
      RemoveFirstKeepsDistinct(t.roots, c);
    case _ =>
  }

  lemma RemoveFirstKeepsDistinct(s: seq<int>, x: int)
    requires NoDuplicates(s)
    ensures NoDuplicates(RemoveFirst(s, x))
  {
    RemoveFirstUnique(s, x);
    WithoutNoDuplicates(s, x);
  }

  // ------------------------------------------------------- the view

  class RedwoodPreviewView {
    var nodes: map<int, Node>
    var children: Lists
    var roots: seq<int>

    function State(): Tree
      reads this
    {
      Tree(nodes, children, roots)
    }

    constructor()
      ensures State() == Tree(map[], map[], [])
    {
      nodes, children, roots := map[], map[], [];
    }

    /** `apply_cmd`: Destroy walks every child list. */
    method ApplyCmd(cmd: RB.Cmd)
      modifies this
      ensures State() == Apply(old(State()), cmd)
    {
      match cmd {
        case Destroy(h) =>
          var rest := StripEverywhere(children - {h}, h);
          nodes, children, roots := nodes - {h}, rest, Without(roots, h);
        case _ =>
          var t := Apply(State(), cmd);
          nodes, children, roots := t.nodes, t.children, t.roots;
      }
    }

    /**
     * `render`: drain the waiting commands, infer the roots when there is
     * no virtual root 0 and none are known, and return the ids drawn at
     * the top level.
     */
    method Render(waiting: seq<RB.Cmd>) returns (top: seq<int>)
      modifies this
      ensures var t := ApplyAll(old(State()), waiting);
        && nodes == t.nodes && children == t.children
        && (0 in t.children ==> roots == t.roots && top == t.children[0])
        && (0 !in t.children && t.roots != [] ==> roots == t.roots && top == t.roots)
        && (0 !in t.children && t.roots == [] ==>
              top == roots && NoDuplicates(roots)
              && forall h :: h in roots <==> h in t.nodes && h !in Listed(t.children))
    {
      var i := 0;
      while i < |waiting|
        invariant i <= |waiting|
        invariant ApplyAll(State(), waiting[i..]) == ApplyAll(old(State()), waiting)
      {
        assert waiting[i..][1..] == waiting[i + 1..];
        ApplyCmd(waiting[i]);
        i := i + 1;
      }
      if 0 in children {
        top := children[0];
      } else {
        if roots == [] {
          roots := InferredRoots(nodes.Keys, children);
        }
        top := roots;
      }
    }
  }
}
