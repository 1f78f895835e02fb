// Ordered child lists keyed by parent id, and the list edits that the
// retained host and the two Redwood renderers share: dropping every
// occurrence of an id, dropping its first occurrence, inserting at a clamped
// position, and inferring the top-level ids as those that no list mentions.
module ChildLists {
  import opened Wrappers

  /** Parent id to its ordered children. */
  type Lists = map<int, seq<int>>

  /**
   * A non-empty set of ids has a member to pick: the small fact that lets
   * the root inference and the id-picking loops name an element with `:|`.
   */
  lemma Occupied(s: set<int>)
    requires s != {}
    ensures exists q: int :: q in s
  {
    if forall q: int :: q !in s {
      assert false;
    }
  }

  /** No id occurs twice. */
  predicate NoDuplicates(s: seq<int>) {
    forall y | y in multiset(s) :: multiset(s)[y] == 1
  }

  lemma NoDuplicatesSnoc(s: seq<int>, x: int)
    requires NoDuplicates(s) && x !in s
    ensures NoDuplicates(s + [x])
  {
    assert multiset(s + [x]) == multiset(s) + multiset{x};
  }

  /**
   * `s` with every occurrence of `x` removed, the rest in order
   * (`Vec::retain(|h| h != x)`).
   */
  function Without(s: seq<int>, x: int): (r: seq<int>)
    ensures multiset(r) == multiset(s)[x := 0]
    ensures x !in s ==> r == s
  {
    if s == [] then []
    else
      assert s == [s[0]] + s[1..];
      (if s[0] == x then [] else [s[0]]) + Without(s[1..], x)
  }

  /** Removing never creates a duplicate, and leaves none of `x`. */
  lemma WithoutNoDuplicates(s: seq<int>, x: int)
    ensures x !in Without(s, x)
    ensures NoDuplicates(s) ==> NoDuplicates(Without(s, x))
  {
    assert x !in multiset(Without(s, x));
  }

  /**
   * Removal distributes over concatenation, so the order of what is kept
   * is the order of the original.
   */
  lemma {:induction false} WithoutAppend(a: seq<int>, b: seq<int>, x: int)
    ensures Without(a + b, x) == Without(a, x) + Without(b, x)
  {
    if a == [] {
      assert a + b == b;
    } else {
      assert (a + b)[0] == a[0];
      assert (a + b)[1..] == a[1..] + b;
      WithoutAppend(a[1..], b, x);
    }
  }

  /** Index of the first occurrence of `x` (`Iterator::position`). */
  function Position(s: seq<int>, x: int): (r: Option<nat>)
    ensures r.None? <==> x !in s
    ensures r.Some? ==> r.value < |s| && s[r.value] == x && x !in s[..r.value]
  {
    if s == [] then None
    else if s[0] == x then Some(0)
    else
      match Position(s[1..], x)
      case None => None
      case Some(i) =>
        assert s[..i + 1] == [s[0]] + s[1..][..i];
        Some(i + 1)
  }

  /**
   * `s` without its first occurrence of `x`: the `position` then `remove`
   * idiom; nothing changes when `x` is absent.
   */
  function RemoveFirst(s: seq<int>, x: int): (r: seq<int>)
    ensures x !in s ==> r == s
    ensures x in s ==> |r| == |s| - 1 && multiset(r) == multiset(s) - multiset{x}
  {
    match Position(s, x)
    case None => s
    case Some(i) =>
      assert s == s[..i] + [s[i]] + s[i + 1..];
      s[..i] + s[i + 1..]
  }

  /** In a list without duplicates nothing after an occurrence repeats it. */
  lemma NoDuplicatesAfter(s: seq<int>, i: nat)
    requires NoDuplicates(s) && i < |s|
    ensures s[i] !in s[i + 1..]
  {
    var y := s[i];
    assert s == s[..i + 1] + s[i + 1..];
    assert multiset(s) == multiset(s[..i + 1]) + multiset(s[i + 1..]);
    assert y in multiset(s[..i + 1]);
    assert multiset(s)[y] == 1;
    assert multiset(s[i + 1..])[y] == 0;
  }

  /**
   * On a list without duplicates, removing the first occurrence is
   * removing every occurrence.
   */
  lemma RemoveFirstUnique(s: seq<int>, x: int)
    requires NoDuplicates(s)
    ensures RemoveFirst(s, x) == Without(s, x)
  {
    var p := Position(s, x);
    if p.Some? {
      var i := p.value;
      var rest := s[i + 1..];
      NoDuplicatesAfter(s, i);
      assert s == s[..i] + ([x] + rest);
      WithoutAppend(s[..i], [x] + rest, x);
      assert ([x] + rest)[1..] == rest;
      assert Without([x] + rest, x) == Without(rest, x);
    }
  }

  /**
   * `x` inserted at `index`, where a negative index counts as 0 and one at
   * or past the end appends.
   */
  function InsertClamped(s: seq<int>, x: int, index: int): (r: seq<int>)
    ensures var at := if index < 0 then 0 else if index < |s| then index else |s|;
      && |r| == |s| + 1 && r[at] == x
      && r[..at] == s[..at] && r[at + 1..] == s[at..]
    ensures multiset(r) == multiset(s) + multiset{x}
  {
    var at := if index < 0 then 0 else if index < |s| then index else |s|;
    assert s == s[..at] + s[at..];
    var r := s[..at] + [x] + s[at..];
    assert r[..at] == s[..at] && r[at + 1..] == s[at..];
    assert multiset(r) == multiset(s[..at]) + multiset{x} + multiset(s[at..]);
    r
  }

  /**
   * The child list after inserting `child` at `index`, clamped to the
   * list's length, unless it is already present.
   */
  function InsertedChildren(children: seq<int>, child: int, index: nat): (r: seq<int>)
    ensures child in children ==> r == children
    ensures child !in children ==>
      var at := if index < |children| then index else |children|;
      && |r| == |children| + 1 && r[at] == child
      && r[..at] == children[..at] && r[at + 1..] == children[at..]
    ensures multiset(r) == multiset(children) + (if child in children then multiset{} else multiset{child})
    ensures NoDuplicates(children) ==> NoDuplicates(r)
  {
    if child in children then children else InsertClamped(children, child, index)
  }

  // ----------------------------------------------------- every list at once

  /** Every id that appears in some child list. */
  function Listed(lists: Lists): set<int> {
    set p, h | p in lists && h in lists[p] :: h
  }

  /** The ids listed under the parents in `done`. */
  ghost function ListedUnder(lists: Lists, done: set<int>): set<int> {
    set p, h | p in done && p in lists && h in lists[p] :: h
  }

  lemma ListedUnderAdd(lists: Lists, done: set<int>, p: int)
    requires p in lists
    ensures ListedUnder(lists, done + {p}) == ListedUnder(lists, done) + (set h | h in lists[p])
  {
    forall h | h in lists[p]
      ensures h in ListedUnder(lists, done + {p})
    {
      assert p in done + {p} && p in lists && h in lists[p];
    }
  }

  /** Each list with `x` removed; the parents stay. */
  function WithoutEverywhere(lists: Lists, x: int): (r: Lists)
    ensures r.Keys == lists.Keys
    ensures x !in Listed(r)
    ensures forall p | p in r :: multiset(r[p]) == multiset(lists[p])[x := 0]
  {
    var r := map p | p in lists :: Without(lists[p], x);
    assert forall p | p in r :: x !in multiset(r[p]);
    r
  }

  lemma ListedHas(lists: Lists, p: int, h: int)
    requires p in lists && h in lists[p]
    ensures h in Listed(lists)
  {
  }

  /** Removing `x` everywhere unlists exactly `x`. */
  lemma ListedWithoutEverywhere(lists: Lists, x: int)
    ensures Listed(WithoutEverywhere(lists, x)) == Listed(lists) - {x}
  {
    var r := WithoutEverywhere(lists, x);
    forall h | h in Listed(lists) && h != x
      ensures h in Listed(r)
    {
      var p :| p in lists && h in lists[p];
      assert h in multiset(lists[p]);
      assert h in multiset(r[p]);
      ListedHas(r, p, h);
    }
    forall h | h in Listed(r)
      ensures h in Listed(lists) && h != x
    {
      var p :| p in r && h in r[p];
      assert h in multiset(r[p]);
      assert h in multiset(lists[p]);
      ListedHas(lists, p, h);
    }
  }

  /** The `for list in children.values_mut() { list.retain(..) }` loop. */
  method StripEverywhere(lists: Lists, x: int) returns (r: Lists)
    ensures r == WithoutEverywhere(lists, x)
  {
    r := lists;
    var pending := lists.Keys;
    while pending != {}
      invariant pending <= lists.Keys && r.Keys == lists.Keys
      invariant forall p | p in lists :: r[p] == if p in pending then lists[p] else Without(lists[p], x)
      decreases pending
    {
      Occupied(pending);
      var p :| p in pending;
      r := r[p := Without(r[p], x)];
      pending := pending - {p};
    }
    assert forall p | p in lists :: r[p] == WithoutEverywhere(lists, x)[p];
  }

  /**
   * Root inference: the ids in `ids` that no child list mentions, each
   * once, in the unspecified order of the id map's iteration. The first
   * loop collects every listed id, the second keeps the unlisted ones.
   */
  method InferredRoots(ids: set<int>, lists: Lists) returns (roots: seq<int>)
    ensures forall h :: h in roots <==> h in ids && h !in Listed(lists)
    ensures NoDuplicates(roots)
  {
    var hasParent: set<int> := {};
    var parents := lists.Keys;
    while parents != {}
      invariant parents <= lists.Keys
      invariant hasParent == ListedUnder(lists, lists.Keys - parents)
      decreases parents
    {
      Occupied(parents);
      var p :| p in parents;
      var children := lists[p];
      var i := 0;
      ghost var before := hasParent;
      while i < |children|
        invariant i <= |children|
        invariant hasParent == before + (set h | h in children[..i])
      {
        assert children[..i + 1] == children[..i] + [children[i]];
        hasParent := hasParent + {children[i]};
        i := i + 1;
      }
      assert children[..i] == children;
      ListedUnderAdd(lists, lists.Keys - parents, p);
      assert lists.Keys - parents + {p} == lists.Keys - (parents - {p});
      parents := parents - {p};
    }
    assert hasParent == Listed(lists);
    roots := [];
    var pending := ids;
    while pending != {}
      invariant pending <= ids
      invariant forall h :: h in roots <==> h in ids && h !in pending && h !in hasParent
      invariant NoDuplicates(roots)
      decreases pending
    {
      Occupied(pending);
      var h :| h in pending;
      if h !in hasParent {
        NoDuplicatesSnoc(roots, h);
        roots := roots + [h];
      }
      pending := pending - {h};
    }
  }
}
