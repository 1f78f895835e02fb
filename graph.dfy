/*
 * Child-list graphs keyed by node id, as kept by both sides of the Yoga
 * bridge: the Yoga node store (handle -> ordered child handles) and the
 * layout engine's `children_map` (layout id -> ordered child ids).
 *
 * A ghost rank that strictly decreases along every edge between known
 * nodes witnesses that the graph is acyclic; it is the termination
 * measure of every recursive walk over the graph.
 */
module Graph {

  type Vertex = int
  type Adjacency = map<Vertex, seq<Vertex>>

  /** Every edge between two known nodes goes strictly down in rank. */
  ghost predicate Ranked(g: Adjacency, rank: map<Vertex, nat>)
  {
    g.Keys <= rank.Keys &&
    forall p, i :: p in g && 0 <= i < |g[p]| && g[p][i] in g ==> rank[g[p][i]] < rank[p]
  }

  /** Along an edge between known nodes the rank drops. */
  lemma RankedEdge(g: Adjacency, rank: map<Vertex, nat>, p: Vertex, i: nat)
    requires Ranked(g, rank) && p in g && i < |g[p]| && g[p][i] in g
    ensures g[p][i] in rank && rank[g[p][i]] < rank[p]
  {
  }

  /** Every child listed anywhere is itself a known node. */
  ghost predicate Closed(g: Adjacency)
  {
    forall p, i :: p in g && 0 <= i < |g[p]| ==> g[p][i] in g
  }

  /** The nodes reachable from `x` (x included), following only known children. */
  function Reach(g: Adjacency, ghost rank: map<Vertex, nat>, x: Vertex): (r: set<Vertex>)
    requires Ranked(g, rank) && x in g
    ensures x in r && r <= g.Keys
    decreases rank[x], 1
  {
    {x} + ReachAll(g, rank, g[x], rank[x])
  }

  /** The union of `Reach` over a list of children, each ranked below `bound`. */
  function ReachAll(g: Adjacency, ghost rank: map<Vertex, nat>, kids: seq<Vertex>, ghost bound: nat): (r: set<Vertex>)
    requires Ranked(g, rank)
    requires forall k | k in kids && k in g :: rank[k] < bound
    ensures r <= g.Keys
    decreases bound, 0, |kids|
  {
    if kids == [] then {}
    else
      var last := kids[|kids| - 1];
      ReachAll(g, rank, kids[..|kids| - 1], bound) + (if last in g then Reach(g, rank, last) else {})
  }

  /** Extending a prefix of the children by one adds that child's reach set. */
  lemma ReachAllStep(g: Adjacency, rank: map<Vertex, nat>, kids: seq<Vertex>, i: nat, bound: nat)
    requires Ranked(g, rank) && i < |kids| && kids[i] in g
    requires forall k | k in kids && k in g :: rank[k] < bound
    ensures ReachAll(g, rank, kids[..i + 1], bound) == ReachAll(g, rank, kids[..i], bound) + Reach(g, rank, kids[i])
  {
    assert kids[..i + 1][..i] == kids[..i];
  }

  /** `ReachAll` is exactly the union of the children's reach sets. */
  lemma {:induction false} ReachAllMembers(g: Adjacency, rank: map<Vertex, nat>, kids: seq<Vertex>, bound: nat, y: Vertex)
    requires Ranked(g, rank)
    requires forall k | k in kids && k in g :: rank[k] < bound
    ensures y in ReachAll(g, rank, kids, bound) <==> exists k :: k in kids && k in g && y in Reach(g, rank, k)
    decreases |kids|
  {
    if kids != [] {
      var last := kids[|kids| - 1];
      var init := kids[..|kids| - 1];
      ReachAllMembers(g, rank, init, bound, y);
      if y in ReachAll(g, rank, kids, bound) {
        if y in ReachAll(g, rank, init, bound) {
          var k :| k in init && k in g && y in Reach(g, rank, k);
          assert k in kids;
        } else {
          assert last in kids;
        }
      } else {
        forall k | k in kids && k in g
          ensures y !in Reach(g, rank, k)
        {
          if k != last {
            var j :| 0 <= j < |kids| && kids[j] == k;
            assert j < |kids| - 1;
            assert init[j] == k;
          }
        }
      }
    }
  }

  /** The reach set of a known child is contained in its parent's. */
  lemma ChildReach(g: Adjacency, rank: map<Vertex, nat>, p: Vertex, i: nat)
    requires Ranked(g, rank) && p in g && i < |g[p]| && g[p][i] in g
    ensures Reach(g, rank, g[p][i]) <= Reach(g, rank, p)
  {
    forall y | y in Reach(g, rank, g[p][i])
      ensures y in Reach(g, rank, p)
    {
      ReachAllMembers(g, rank, g[p][i := g[p][i]], rank[p], y);
      assert g[p][i := g[p][i]] == g[p];
    }
  }

  /** Reachability is transitive. */
  lemma {:induction false} ReachTransitive(g: Adjacency, rank: map<Vertex, nat>, x: Vertex, y: Vertex)
    requires Ranked(g, rank) && x in g && y in Reach(g, rank, x)
    ensures Reach(g, rank, y) <= Reach(g, rank, x)
    decreases rank[x]
  {
    if y != x {
      ReachAllMembers(g, rank, g[x], rank[x], y);
      var k :| k in g[x] && k in g && y in Reach(g, rank, k);
      var i :| 0 <= i < |g[x]| && g[x][i] == k;
      ReachTransitive(g, rank, k, y);
      ChildReach(g, rank, x, i);
    }
  }

  /**
   * Every node reached from `x`, other than `x` itself, is a listed child
   * of some node that is also reached from `x`.
   */
  lemma {:induction false} ReachHasParent(g: Adjacency, rank: map<Vertex, nat>, x: Vertex, y: Vertex)
    requires Ranked(g, rank) && x in g && y in Reach(g, rank, x) && y != x
    ensures exists p, i :: p in Reach(g, rank, x) && 0 <= i < |g[p]| && g[p][i] == y
    decreases rank[x]
  {
    ReachAllMembers(g, rank, g[x], rank[x], y);
    var k :| k in g[x] && k in g && y in Reach(g, rank, k);
    var i :| 0 <= i < |g[x]| && g[x][i] == k;
    ChildReach(g, rank, x, i);
    if y == k {
      assert x in Reach(g, rank, x) && g[x][i] == y;
    } else {
      ReachHasParent(g, rank, k, y);
      var p, j :| p in Reach(g, rank, k) && 0 <= j < |g[p]| && g[p][j] == y;
      assert p in Reach(g, rank, x);
    }
  }

  /** The largest rank among the known nodes of `kids`, plus one. */
  function RankBound(g: Adjacency, rank: map<Vertex, nat>, kids: seq<Vertex>): (b: nat)
    requires g.Keys <= rank.Keys
    ensures forall k | k in kids && k in g :: rank[k] < b
  {
    if kids == [] then 0
    else
      var rest := RankBound(g, rank, kids[1..]);
      var here := if kids[0] in g then rank[kids[0]] + 1 else 0;
      if here > rest then here else rest
  }

  /**
   * The rank after `p`'s child list is replaced by `kids`: every node from
   * which `p` is reachable is lifted above all of the new children.
   */
  ghost function Reranked(g: Adjacency, rank: map<Vertex, nat>, p: Vertex, kids: seq<Vertex>): map<Vertex, nat>
    requires Ranked(g, rank)
  {
    var lift := RankBound(g, rank, kids);
    map x | x in rank :: if x in g && p in Reach(g, rank, x) then rank[x] + lift else rank[x]
  }

  /**
   * Replacing the child list of a known node `p` keeps the graph acyclic
   * provided `p` is not reachable from any of its new children.
   */
  lemma Reparent(g: Adjacency, rank: map<Vertex, nat>, p: Vertex, kids: seq<Vertex>)
    requires Ranked(g, rank) && p in g
    requires forall k | k in kids && k in g :: p !in Reach(g, rank, k)
    ensures Ranked(g[p := kids], Reranked(g, rank, p, kids))
  {
    var g' := g[p := kids];
    var r' := Reranked(g, rank, p, kids);
    var lift := RankBound(g, rank, kids);
    forall q, i | q in g' && 0 <= i < |g'[q]| && g'[q][i] in g'
      ensures r'[g'[q][i]] < r'[q]
    {
      var c := g'[q][i];
      if q == p {
        assert c in kids;
      } else {
        assert g[q][i] == c;
        if p in Reach(g, rank, c) {
          ChildReach(g, rank, q, i);
        }
      }
    }
  }

  /** A node that no child list names is reached from no other node. */
  lemma OrphanUnreached(g: Adjacency, rank: map<Vertex, nat>, x: Vertex, y: Vertex)
    requires Ranked(g, rank) && y in g && y != x
    requires forall p, i | p in g && 0 <= i < |g[p]| :: g[p][i] != x
    ensures x !in Reach(g, rank, y)
  {
    if x in Reach(g, rank, y) {
      ReachHasParent(g, rank, y, x);
      assert false;
    }
  }

  /** A new node without children keeps the graph ranked and closed. */
  lemma AddLeaf(g: Adjacency, rank: map<Vertex, nat>, x: Vertex)
    requires Ranked(g, rank) && Closed(g) && x !in g
    ensures Ranked(g[x := []], rank[x := 0]) && Closed(g[x := []])
  {
  }

  /** A child list made only of known nodes keeps the graph closed. */
  lemma ReparentClosed(g: Adjacency, p: Vertex, kids: seq<Vertex>)
    requires Closed(g) && p in g && forall k | k in kids :: k in g
    ensures Closed(g[p := kids]) && g[p := kids].Keys == g.Keys
  {
    var g' := g[p := kids];
    forall q, i | q in g' && 0 <= i < |g'[q]|
      ensures g'[q][i] in g'
    {
      if q == p {
        var k := kids[i];
        assert k in kids;
        assert k in g;
      } else {
        assert g'[q] == g[q];
        assert g[q][i] in g;
      }
    }
  }

  /** Keeps the elements of `s` that are not in `gone`, in order. */
  function Without(s: seq<Vertex>, gone: set<Vertex>): (r: seq<Vertex>)
    ensures forall x :: x in r <==> x in s && x !in gone
    ensures |r| <= |s|
  {
    if s == [] then []
    else if s[0] in gone then Without(s[1..], gone)
    else [s[0]] + Without(s[1..], gone)
  }

  /** Filtering a concatenation filters each part. */
  lemma {:induction false} WithoutAppend(s: seq<Vertex>, t: seq<Vertex>, gone: set<Vertex>)
    ensures Without(s + t, gone) == Without(s, gone) + Without(t, gone)
    decreases |s|
  {
    if s == [] {
      assert s + t == t;
    } else {
      assert (s + t)[0] == s[0] && (s + t)[1..] == s[1..] + t;
      WithoutAppend(s[1..], t, gone);
    }
  }

  /** A node without children reaches only itself. */
  lemma LeafReach(g: Adjacency, rank: map<Vertex, nat>, x: Vertex)
    requires Ranked(g, rank) && x in g && g[x] == []
    ensures Reach(g, rank, x) == {x}
  {
  }

  /** The graph without the nodes of `gone` and without any edge into them. */
  function Prune(g: Adjacency, gone: set<Vertex>): (r: Adjacency)
    ensures r.Keys == g.Keys - gone
    ensures forall q | q in r :: r[q] == Without(g[q], gone)
  {
    map q | q in g && q !in gone :: Without(g[q], gone)
  }

  /** Pruning keeps the graph ranked, and closed if it was. */
  lemma PruneKeepsShape(g: Adjacency, rank: map<Vertex, nat>, gone: set<Vertex>)
    requires Ranked(g, rank) && Closed(g)
    ensures Ranked(Prune(g, gone), rank) && Closed(Prune(g, gone))
  {
    var g' := Prune(g, gone);
    forall q, i | q in g' && 0 <= i < |g'[q]| && g'[q][i] in g'
      ensures rank[g'[q][i]] < rank[q]
    {
      var c := g'[q][i];
      assert c in g[q];
      var j :| 0 <= j < |g[q]| && g[q][j] == c;
    }
    forall q, i | q in g' && 0 <= i < |g'[q]|
      ensures g'[q][i] in g'
    {
      var c := g'[q][i];
      assert c in g[q] && c !in gone;
      var j :| 0 <= j < |g[q]| && g[q][j] == c;
    }
  }
  /** Filtering twice filters by both sets at once. */
  lemma {:induction false} WithoutTwice(s: seq<Vertex>, a: set<Vertex>, b: set<Vertex>)
    ensures Without(Without(s, a), b) == Without(s, a + b)
    decreases |s|
  {
    if s != [] {
      WithoutTwice(s[1..], a, b);
      if s[0] !in a {
        assert Without(s, a)[1..] == Without(s[1..], a);
      }
    }
  }

  /** Pruning twice prunes both sets at once. */
  lemma PruneTwice(g: Adjacency, a: set<Vertex>, b: set<Vertex>)
    ensures Prune(Prune(g, a), b) == Prune(g, a + b)
  {
    forall q | q in Prune(g, a + b)
      ensures Prune(Prune(g, a), b)[q] == Prune(g, a + b)[q]
    {
      WithoutTwice(g[q], a, b);
    }
  }

  /** Filtering by nothing keeps the list. */
  lemma {:induction false} WithoutNothing(s: seq<Vertex>)
    ensures Without(s, {}) == s
    decreases |s|
  {
    if s != [] {
      WithoutNothing(s[1..]);
      assert [s[0]] + s[1..] == s;
    }
  }

  /** Pruning nothing keeps the graph. */
  lemma PruneNothing(g: Adjacency)
    ensures Prune(g, {}) == g
  {
    forall q | q in g
      ensures Prune(g, {})[q] == g[q]
    {
      WithoutNothing(g[q]);
    }
  }

  /** `live` is closed upwards: a node with a live child is live itself. */
  ghost predicate UpClosed(g: Adjacency, live: set<Vertex>)
  {
    forall p, i | p in g && 0 <= i < |g[p]| && g[p][i] in live :: p in live
  }

  /** A reach set is closed under following a known child. */
  lemma ReachClosed(g: Adjacency, rank: map<Vertex, nat>, y: Vertex, p: Vertex, i: nat)
    requires Ranked(g, rank) && y in g && p in Reach(g, rank, y) && i < |g[p]| && g[p][i] in g
    ensures g[p][i] in Reach(g, rank, y)
  {
    ReachTransitive(g, rank, y, p);
    ChildReach(g, rank, p, i);
  }

  /**
   * Pruning away the reach of a surviving node, after an upward-closed
   * survivor set, is one prune of both sets and keeps the survivors
   * upward-closed.
   */
  lemma PruneReach(g: Adjacency, rank: map<Vertex, nat>, gone: set<Vertex>, h: Vertex)
    requires Ranked(Prune(g, gone), rank) && h in Prune(g, gone)
    requires UpClosed(g, g.Keys - gone)
    ensures var r := Reach(Prune(g, gone), rank, h);
      && Prune(Prune(g, gone), r) == Prune(g, gone + r)
      && UpClosed(g, g.Keys - (gone + r))
  {
    var cur := Prune(g, gone);
    var r := Reach(cur, rank, h);
    PruneTwice(g, gone, r);
    forall p, i | p in g && 0 <= i < |g[p]| && g[p][i] in g.Keys - (gone + r)
      ensures p in g.Keys - (gone + r)
    {
      var c := g[p][i];
      assert p in g.Keys - gone;
      if p in r {
        assert c in cur[p];
        var j :| 0 <= j < |cur[p]| && cur[p][j] == c;
        ReachClosed(cur, rank, h, p, j);
      }
    }
  }

  /** A node that no list of `g` names is reached from no other node after pruning. */
  lemma UnlistedUnreached(g: Adjacency, rank: map<Vertex, nat>, gone: set<Vertex>, x: Vertex, y: Vertex)
    requires Ranked(Prune(g, gone), rank) && y in Prune(g, gone) && y != x
    requires forall p, i | p in g && 0 <= i < |g[p]| :: g[p][i] != x
    ensures x !in Reach(Prune(g, gone), rank, y)
  {
    var cur := Prune(g, gone);
    forall p, i | p in cur && 0 <= i < |cur[p]|
      ensures cur[p][i] != x
    {
      assert cur[p][i] in g[p];
    }
    OrphanUnreached(cur, rank, x, y);
  }

  /**
   * In an acyclic graph, an upward-closed set of nodes each of which is
   * some node's child is empty: following parents upwards would climb
   * the ranks for ever.
   */
  lemma {:induction false} NoTopless(g: Adjacency, rank: map<Vertex, nat>, live: set<Vertex>, x: Vertex)
    requires Ranked(g, rank) && live <= g.Keys && UpClosed(g, live)
    requires forall h | h in live :: exists p, i :: p in g && 0 <= i < |g[p]| && g[p][i] == h
    requires x in live
    ensures false
    decreases |set y | y in live && rank[y] > rank[x]|
  {
    var p, i :| p in g && 0 <= i < |g[p]| && g[p][i] == x;
    RankedEdge(g, rank, p, i);
    var above := set y | y in live && rank[y] > rank[x];
    var aboveP := set y | y in live && rank[y] > rank[p];
    var rest := above - (aboveP + {p});
    assert above == (aboveP + {p}) + rest;
    assert |aboveP + {p}| == |aboveP| + 1;
    NoTopless(g, rank, live, p);
  }

  /** Hence such a set is empty. */
  lemma AllChildrenGone(g: Adjacency, rank: map<Vertex, nat>, live: set<Vertex>)
    requires Ranked(g, rank) && live <= g.Keys && UpClosed(g, live)
    requires forall h | h in live :: exists p, i :: p in g && 0 <= i < |g[p]| && g[p][i] == h
    ensures live == {}
  {
    forall x | x in live
      ensures false
    {
      NoTopless(g, rank, live, x);
    }
  }
}
