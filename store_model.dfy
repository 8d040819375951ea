/** Reference definitions of what the tree store computes, written as
    functions over the flat item array, and the lemmas that say what they
    mean. The class in module TreeStore is proved against these. */
module StoreModel {
  import opened Types

  // ---------------------------------------------------------------------
  // Point lookup
  // ---------------------------------------------------------------------

  /** Position of the last item whose id is `k`, or -1 when no item has it. */
  function LastIndexOf(s: seq<Item>, k: Id): (r: int)
    ensures -1 <= r < |s|
    ensures r >= 0 ==> s[r].id == k
    ensures forall j :: r < j < |s| ==> s[j].id != k
  {
    if s == [] then -1
    else if s[|s| - 1].id == k then |s| - 1
    else LastIndexOf(s[..|s| - 1], k)
  }

  /** Position of the first item whose id is `k`, or -1 when no item has it
      (the array search the store's update runs). */
  function FindIndex(s: seq<Item>, k: Id): (r: int)
    ensures -1 <= r < |s|
    ensures r >= 0 ==> s[r].id == k
    ensures forall j :: 0 <= j < |s| && (r < 0 || j < r) ==> s[j].id != k
  {
    if s == [] then -1
    else if s[0].id == k then 0
    else
      var r := FindIndex(s[1..], k);
      if r < 0 then -1 else r + 1
  }

  /** What a lookup of `k` answers: the last item with that id, or nothing. */
  function Lookup(s: seq<Item>, k: Id): (r: Option<Item>)
    ensures r.None? <==> forall j :: 0 <= j < |s| ==> s[j].id != k
    ensures r.Some? ==> r.value.id == k && r.value in s
  {
    var i := LastIndexOf(s, k);
    if i < 0 then None else Some(s[i])
  }

  /** The id-to-item map rebuilt after every change: entries are written in
      array order, so a later item overwrites an earlier one with its id. */
  function IdMap(s: seq<Item>): (m: map<Id, Item>)
    ensures forall k :: k in m ==> m[k].id == k && m[k] in s
  {
    if s == [] then map[]
    else IdMap(s[..|s| - 1])[s[|s| - 1].id := s[|s| - 1]]
  }

  /** The rebuilt map answers every lookup as `Lookup` does: it has an entry
      exactly for the ids present, holding the last item with that id. */
  lemma {:induction false} IdMapAgrees(s: seq<Item>, k: Id)
    ensures k in IdMap(s) <==> Lookup(s, k).Some?
    ensures k in IdMap(s) ==> IdMap(s)[k] == Lookup(s, k).value
  {
    if s != [] {
      IdMapAgrees(s[..|s| - 1], k);
    }
  }

  /** The map's keys are exactly the ids in the array: no entry survives for
      an id that is no longer present. */
  lemma IdMapKeys(s: seq<Item>)
    ensures IdMap(s).Keys == set x | x in s :: x.id
  {
    forall k | k in IdMap(s) ensures exists x :: x in s && x.id == k {
      IdMapAgrees(s, k);
    }
    forall x | x in s ensures x.id in IdMap(s) {
      IdMapAgrees(s, x.id);
    }
  }

  /** No two items share an id. The store does not enforce this. */
  ghost predicate UniqueIds(s: seq<Item>)
  {
    forall i, j :: 0 <= i < j < |s| ==> s[i].id != s[j].id
  }

  /** With unique ids every item is found under its own id. */
  lemma LookupUnique(s: seq<Item>, x: Item)
    requires UniqueIds(s) && x in s
    ensures Lookup(s, x.id) == Some(x)
  {
    var i :| 0 <= i < |s| && s[i] == x;
    assert LastIndexOf(s, x.id) >= i;
  }

  // ---------------------------------------------------------------------
  // Direct children
  // ---------------------------------------------------------------------

  /** The items whose parent is `id`, in array order. */
  function Children(s: seq<Item>, id: Id): (r: seq<Item>)
    ensures |r| <= |s|
    ensures forall x :: x in r <==> x in s && x.parent == Some(id)
  {
    if s == [] then []
    else (if s[0].parent == Some(id) then [s[0]] else []) + Children(s[1..], id)
  }

  /** The children filter keeps array order: filtering a concatenation is
      concatenating the filtered parts. */
  lemma {:induction false} ChildrenConcat(a: seq<Item>, b: seq<Item>, id: Id)
    ensures Children(a + b, id) == Children(a, id) + Children(b, id)
  {
    if a != [] {
      ConsSplit(a, b);
      ChildrenConcat(a[1..], b, id);
      var head := if a[0].parent == Some(id) then [a[0]] else [];
      ConcatAssoc(head, Children(a[1..], id), Children(b, id));
    } else {
      NilConcat(b);
    }
  }

  /** A filter of an array without repeated ids has no repeated ids. */
  lemma {:induction false} ChildrenUnique(s: seq<Item>, id: Id)
    requires UniqueIds(s)
    ensures UniqueIds(Children(s, id))
  {
    if s != [] {
      assert UniqueIds(s[1..]) by {
        forall i, j | 0 <= i < j < |s[1..]| ensures s[1..][i].id != s[1..][j].id {
          assert s[1..][i] == s[i + 1] && s[1..][j] == s[j + 1];
        }
      }
      ChildrenUnique(s[1..], id);
      var rest := Children(s[1..], id);
      forall x | x in rest ensures x.id != s[0].id {
        var j :| 0 <= j < |s[1..]| && s[1..][j] == x;
        assert s[j + 1] == x;
      }
    }
  }

  // ---------------------------------------------------------------------
  // Acyclicity
  // ---------------------------------------------------------------------

  /** `rank` strictly grows from every item to the id its parent field names. */
  ghost predicate RankedBy(items: seq<Item>, rank: Id -> nat)
  {
    forall i :: 0 <= i < |items| && items[i].parent.Some? ==>
      rank(items[i].id) < rank(items[i].parent.value)
  }

  /** No parent chain loops back: some rank grows along every parent link.
      The two walks of the store stop only on such arrays. */
  ghost predicate Acyclic(items: seq<Item>)
  {
    exists rank: Id -> nat :: RankedBy(items, rank)
  }

  /** One fixed rank of an acyclic array, used to measure the walks. */
  ghost function Rank(items: seq<Item>): (rank: Id -> nat)
    requires Acyclic(items)
    ensures RankedBy(items, rank)
  {
    var rank :| RankedBy(items, rank);
    rank
  }

  /** A child ranks below its parent id. */
  lemma RankDrops(items: seq<Item>, c: Item, p: Id)
    requires Acyclic(items) && c in items && c.parent == Some(p)
    ensures Rank(items)(c.id) < Rank(items)(p)
  {
    var i :| 0 <= i < |items| && items[i] == c;
  }

  /** One more than the highest rank among the ids of `cs` (0 for none). */
  ghost function RankBound(items: seq<Item>, cs: seq<Item>): nat
    requires Acyclic(items)
  {
    if cs == [] then 0
    else
      var top := Rank(items)(cs[|cs| - 1].id) + 1;
      var rest := RankBound(items, cs[..|cs| - 1]);
      if top < rest then rest else top
  }

  lemma {:induction false} BelowRankBound(items: seq<Item>, cs: seq<Item>, x: Item)
    requires Acyclic(items) && x in cs
    ensures Rank(items)(x.id) < RankBound(items, cs)
  {
    if x != cs[|cs| - 1] {
      assert x in cs[..|cs| - 1];
      BelowRankBound(items, cs[..|cs| - 1], x);
    }
  }

  lemma {:induction false} RankBoundAtMost(items: seq<Item>, cs: seq<Item>, n: nat)
    requires Acyclic(items)
    requires forall c :: c in cs ==> Rank(items)(c.id) < n
    ensures RankBound(items, cs) <= n
  {
    if cs != [] {
      assert cs[|cs| - 1] in cs;
      forall c | c in cs[..|cs| - 1] ensures c in cs { }
      RankBoundAtMost(items, cs[..|cs| - 1], n);
    }
  }

  /** The children of `p` all rank below `p`. */
  lemma ChildrenRankBound(items: seq<Item>, p: Id)
    requires Acyclic(items)
    ensures RankBound(items, Children(items, p)) <= Rank(items)(p)
  {
    forall c | c in Children(items, p) ensures Rank(items)(c.id) < Rank(items)(p) {
      RankDrops(items, c, p);
    }
    RankBoundAtMost(items, Children(items, p), Rank(items)(p));
  }

  /** Every item of an acyclic array ranks below the array's bound. */
  lemma RankBelowTop(items: seq<Item>, x: Item)
    requires Acyclic(items) && x in items
    ensures Rank(items)(x.id) < RankBound(items, items)
  {
    BelowRankBound(items, items, x);
  }

  /** Removing or reordering items keeps an array acyclic. */
  lemma AcyclicSubset(items: seq<Item>, sub: seq<Item>)
    requires Acyclic(items)
    requires forall x :: x in sub ==> x in items
    ensures Acyclic(sub)
  {
    var rank := Rank(items);
    forall i | 0 <= i < |sub| && sub[i].parent.Some?
      ensures rank(sub[i].id) < rank(sub[i].parent.value)
    {
      assert sub[i] in items;
      RankDrops(items, sub[i], sub[i].parent.value);
    }
    assert RankedBy(sub, rank);
  }

  // ---------------------------------------------------------------------
  // Descendants
  // ---------------------------------------------------------------------

  /** The items the store's stack walk emits when its stack holds `roots`:
      the last root, then everything below it, then the walk of the remaining
      roots. This is a depth-first walk that visits siblings right to left. */
  function Subtrees(items: seq<Item>, roots: seq<Item>): (r: seq<Item>)
    requires Acyclic(items)
    ensures forall x :: x in roots ==> x in r
    ensures forall x :: x in r ==> x in roots || (x in items && x.parent.Some?)
    decreases RankBound(items, roots), |roots|
  {
    if roots == [] then []
    else
      var top := roots[|roots| - 1];
      ChildrenRankBound(items, top.id);
      [top] + Subtrees(items, Children(items, top.id)) + Subtrees(items, roots[..|roots| - 1])
  }

  /** Every transitive descendant of `id`, in the store's walk order. */
  function AllChildren(items: seq<Item>, id: Id): (r: seq<Item>)
    requires Acyclic(items)
    ensures forall x :: x in items && x.parent == Some(id) ==> x in r
    ensures forall x :: x in r ==> x in items && x.parent.Some?
  {
    Subtrees(items, Children(items, id))
  }

  /** The walk of a stack whose top is `x`: `x`, everything below it, then
      the walk of the rest of the stack. */
  lemma SubtreesStep(items: seq<Item>, rest: seq<Item>, x: Item)
    requires Acyclic(items)
    ensures Subtrees(items, rest + [x]) == [x] + AllChildren(items, x.id) + Subtrees(items, rest)
  {
    var s := rest + [x];
    assert s[|s| - 1] == x && s[..|s| - 1] == rest;
  }

  /** Pushing more roots on top of the stack: their walks come first. */
  lemma {:induction false} SubtreesConcat(items: seq<Item>, a: seq<Item>, b: seq<Item>)
    requires Acyclic(items)
    ensures Subtrees(items, a + b) == Subtrees(items, b) + Subtrees(items, a)
    decreases |b|
  {
    if b == [] {
      assert a + b == a;
    } else {
      var x, b' := b[|b| - 1], b[..|b| - 1];
      LastSplit(b);
      SubtreesConcat(items, a, b');
      SnocAssoc(a, b', x);
      SubtreesStep(items, a + b', x);
      SubtreesStep(items, b', x);
      ConcatAssoc([x] + AllChildren(items, x.id), Subtrees(items, b'), Subtrees(items, a));
    }
  }

  /** One step of the stack walk: the walk of a stack is its top root,
      then the walk of the stack with that root popped and its children
      pushed. */
  lemma SubtreesPop(items: seq<Item>, stack: seq<Item>)
    requires Acyclic(items) && stack != []
    ensures var n := |stack| - 1;
      Subtrees(items, stack) == [stack[n]] + Subtrees(items, stack[..n] + Children(items, stack[n].id))
  {
    var n := |stack| - 1;
    var top, rest := stack[n], stack[..n];
    var kids := Children(items, top.id);
    LastSplit(stack);
    SubtreesStep(items, rest, top);
    SubtreesConcat(items, rest, kids);
    ConcatAssoc([top], Subtrees(items, kids), Subtrees(items, rest));
  }

  /** An item is emitted for `roots` exactly when it is one of the roots or
      lies below one of them. */
  lemma SubtreesMembers(items: seq<Item>, roots: seq<Item>, x: Item)
    requires Acyclic(items)
    ensures x in Subtrees(items, roots) <==>
      exists i :: 0 <= i < |roots| && (x == roots[i] || x in AllChildren(items, roots[i].id))
  {
    if x in Subtrees(items, roots) {
      SubtreesEmitFrom(items, roots, x);
    }
    if exists i :: 0 <= i < |roots| && (x == roots[i] || x in AllChildren(items, roots[i].id)) {
      var i :| 0 <= i < |roots| && (x == roots[i] || x in AllChildren(items, roots[i].id));
      SubtreesEmitAll(items, roots, i, x);
    }
  }

  /** Whatever the walk emits is a root or lies below one. */
  lemma {:induction false} SubtreesEmitFrom(items: seq<Item>, roots: seq<Item>, x: Item)
    requires Acyclic(items) && x in Subtrees(items, roots)
    ensures exists i :: 0 <= i < |roots| && (x == roots[i] || x in AllChildren(items, roots[i].id))
    decreases |roots|
  {
    var n := |roots| - 1;
    var top, rest := roots[n], roots[..n];
    LastSplit(roots);
    SubtreesStep(items, rest, top);
    if x in Subtrees(items, rest) {
      SubtreesEmitFrom(items, rest, x);
      var i :| 0 <= i < |rest| && (x == rest[i] || x in AllChildren(items, rest[i].id));
      assert roots[i] == rest[i];
    } else {
      assert x == roots[n] || x in AllChildren(items, roots[n].id);
    }
  }

  /** The walk emits every root and everything below one. */
  lemma {:induction false} SubtreesEmitAll(items: seq<Item>, roots: seq<Item>, i: int, x: Item)
    requires Acyclic(items) && 0 <= i < |roots|
    requires x == roots[i] || x in AllChildren(items, roots[i].id)
    ensures x in Subtrees(items, roots)
    decreases |roots|
  {
    var n := |roots| - 1;
    var top, rest := roots[n], roots[..n];
    LastSplit(roots);
    SubtreesStep(items, rest, top);
    if i < n {
      assert rest[i] == roots[i];
      SubtreesEmitAll(items, rest, i, x);
    }
  }

  /** Every item of `AllChildren(items, id)` is an item of the array and ranks
      below `id`. */
  lemma {:induction false} AllChildrenBelow(items: seq<Item>, id: Id, x: Item)
    requires Acyclic(items)
    requires x in AllChildren(items, id)
    ensures x in items && Rank(items)(x.id) < Rank(items)(id)
    decreases Rank(items)(id)
  {
    var cs := Children(items, id);
    SubtreesMembers(items, cs, x);
    var i :| 0 <= i < |cs| && (x == cs[i] || x in AllChildren(items, cs[i].id));
    RankDrops(items, cs[i], id);
    if x != cs[i] {
      AllChildrenBelow(items, cs[i].id, x);
    }
  }

  /** What lies below a descendant lies below the ancestor too. */
  lemma {:induction false} AllChildrenTransitive(items: seq<Item>, id: Id, y: Item, x: Item)
    requires Acyclic(items)
    requires y in AllChildren(items, id) && x in AllChildren(items, y.id)
    ensures x in AllChildren(items, id)
    decreases Rank(items)(id)
  {
    var cs := Children(items, id);
    SubtreesMembers(items, cs, y);
    var i :| 0 <= i < |cs| && (y == cs[i] || y in AllChildren(items, cs[i].id));
    if y != cs[i] {
      RankDrops(items, cs[i], id);
      AllChildrenTransitive(items, cs[i].id, y, x);
    }
    SubtreesMembers(items, cs, x);
  }

  /** A direct child is a descendant. */
  lemma ChildIsDescendant(items: seq<Item>, id: Id, x: Item)
    requires Acyclic(items) && x in items && x.parent == Some(id)
    ensures x in AllChildren(items, id)
  {
    var cs := Children(items, id);
    var i :| 0 <= i < |cs| && cs[i] == x;
    SubtreesMembers(items, cs, x);
  }

  // ---------------------------------------------------------------------
  // Ancestors
  // ---------------------------------------------------------------------

  /** The chain the store's upward walk builds from `it`: the item resolved
      from `it`'s parent id, and so on, root first, ending with `it`. The
      walk stops at an item with no parent or with a parent id that does not
      resolve. */
  function Ancestors(items: seq<Item>, it: Item): (r: seq<Item>)
    requires Acyclic(items) && it in items
    ensures r != [] && r[|r| - 1] == it
    ensures r[0].parent.None? || Lookup(items, r[0].parent.value).None?
    decreases RankBound(items, items) - Rank(items)(it.id)
  {
    match it.parent
    case None => [it]
    case Some(p) =>
      match Lookup(items, p)
      case None => [it]
      case Some(q) =>
        RankDrops(items, it, p);
        RankBelowTop(items, q);
        Ancestors(items, q) + [it]
  }

  /** An item whose parent resolves to `q` extends the chain of `q`. */
  lemma AncestorsStep(items: seq<Item>, it: Item, q: Item)
    requires Acyclic(items) && it in items && q in items
    requires it.parent == Some(q.id) && Lookup(items, q.id) == Some(q)
    ensures Ancestors(items, it) == Ancestors(items, q) + [it]
  {
  }

  /** A root, or an item whose parent does not resolve, heads its own chain. */
  lemma AncestorsTop(items: seq<Item>, it: Item)
    requires Acyclic(items) && it in items
    requires it.parent.None? || Lookup(items, it.parent.value).None?
    ensures Ancestors(items, it) == [it]
  {
  }

  /** What the store answers for the ancestors of `id`: nothing when `id`
      does not resolve, the chain up from the resolved item otherwise. */
  function AllParents(items: seq<Item>, id: Id): (r: seq<Item>)
    requires Acyclic(items)
    ensures r == [] <==> Lookup(items, id).None?
    ensures r != [] ==> r[|r| - 1] == Lookup(items, id).value
  {
    match Lookup(items, id)
    case None => []
    case Some(it) => Ancestors(items, it)
  }

  /** `c` is an ancestor chain for `it`: it ends with `it`, each element is
      what the next element's parent id resolves to, and the first element
      is a root or has a parent id that does not resolve. */
  ghost predicate IsAncestorChain(items: seq<Item>, c: seq<Item>, it: Item)
  {
    && |c| >= 1
    && c[|c| - 1] == it
    && (forall k :: 1 <= k < |c| ==>
          c[k].parent.Some? && Lookup(items, c[k].parent.value) == Some(c[k - 1]))
    && (c[0].parent.None? || Lookup(items, c[0].parent.value).None?)
  }

  /** The upward walk yields an ancestor chain of items of the array, in
      which each element's parent id is the id of the element before it. */
  lemma {:induction false} AncestorsChain(items: seq<Item>, it: Item)
    requires Acyclic(items) && it in items
    ensures IsAncestorChain(items, Ancestors(items, it), it)
    ensures forall x :: x in Ancestors(items, it) ==> x in items
    ensures var c := Ancestors(items, it);
      forall k :: 1 <= k < |c| ==> c[k].parent == Some(c[k - 1].id)
    decreases RankBound(items, items) - Rank(items)(it.id)
  {
    match it.parent
    case None =>
    case Some(p) =>
      match Lookup(items, p)
      case None =>
      case Some(q) =>
        RankDrops(items, it, p);
        RankBelowTop(items, q);
        AncestorsChain(items, q);
        var c := Ancestors(items, q);
        var d := c + [it];
        assert Ancestors(items, it) == d;
        forall k | 1 <= k < |d|
          ensures d[k].parent.Some? && Lookup(items, d[k].parent.value) == Some(d[k - 1])
          ensures d[k].parent == Some(d[k - 1].id)
        {
          if k < |c| {
            assert d[k] == c[k] && d[k - 1] == c[k - 1];
          }
        }
  }

  /** An ancestor chain is unique: any chain for `it` is the upward walk. */
  lemma {:induction false} AncestorChainUnique(items: seq<Item>, c: seq<Item>, it: Item)
    requires Acyclic(items) && it in items
    requires IsAncestorChain(items, c, it)
    ensures c == Ancestors(items, it)
    decreases |c|
  {
    if |c| > 1 {
      var n := |c| - 1;
      var q := c[n - 1];
      assert c[n] == it && c[n].parent.Some?;
      var p := it.parent.value;
      assert Lookup(items, p) == Some(q);
      var pre := c[..n];
      assert IsAncestorChain(items, pre, q) by {
        forall k | 1 <= k < |pre|
          ensures pre[k].parent.Some? && Lookup(items, pre[k].parent.value) == Some(pre[k - 1])
        {
          assert pre[k] == c[k] && pre[k - 1] == c[k - 1];
        }
      }
      AncestorChainUnique(items, pre, q);
      assert c == pre + [it];
    }
  }

  /** The answer to an ancestor query: empty exactly when the id does not
      resolve; otherwise an ancestor chain ending with the resolved item, a
      single item for a root. */
  lemma AllParentsShape(items: seq<Item>, id: Id)
    requires Acyclic(items)
    ensures AllParents(items, id) == [] <==> Lookup(items, id).None?
    ensures Lookup(items, id).Some? ==>
      IsAncestorChain(items, AllParents(items, id), Lookup(items, id).value)
    ensures Lookup(items, id).Some? && Lookup(items, id).value.parent.None? ==>
      AllParents(items, id) == [Lookup(items, id).value]
  {
    if Lookup(items, id).Some? {
      AncestorsChain(items, Lookup(items, id).value);
    }
  }

  // ---------------------------------------------------------------------
  // Removal
  // ---------------------------------------------------------------------

  /** The items whose id is not in `ids`, in array order. */
  function Without(s: seq<Item>, ids: set<Id>): (r: seq<Item>)
    ensures |r| <= |s|
    ensures forall x :: x in r <==> x in s && x.id !in ids
  {
    if s == [] then []
    else (if s[0].id in ids then [] else [s[0]]) + Without(s[1..], ids)
  }

  /** The removal filter keeps the relative order of the items it keeps. */
  lemma {:induction false} WithoutConcat(a: seq<Item>, b: seq<Item>, ids: set<Id>)
    ensures Without(a + b, ids) == Without(a, ids) + Without(b, ids)
  {
    if a != [] {
      ConsSplit(a, b);
      WithoutConcat(a[1..], b, ids);
      var head := if a[0].id in ids then [] else [a[0]];
      ConcatAssoc(head, Without(a[1..], ids), Without(b, ids));
    } else {
      NilConcat(b);
    }
  }

  /** Filtering out no ids leaves the array as it is. */
  lemma {:induction false} WithoutNothing(s: seq<Item>)
    ensures Without(s, {}) == s
  {
    if s != [] {
      WithoutNothing(s[1..]);
      assert s == [s[0]] + s[1..];
    }
  }

  /** The ids a removal of `id` deletes: the resolved item's own id and the
      ids of all its descendants. */
  function RemovalIds(items: seq<Item>, id: Id): (r: set<Id>)
    requires Acyclic(items)
    ensures Lookup(items, id).Some? ==> id in r
    ensures forall x :: x in items && x.parent == Some(id) ==> x.id in r
    ensures forall k :: k in r ==> exists x :: x in items && x.id == k
  {
    (match Lookup(items, id) case None => {} case Some(it) => {it.id})
      + set c | c in AllChildren(items, id) :: c.id
  }

  /** An item that a removal keeps does not name a removed id as its parent:
      its parent would then be the removed item or one of its descendants,
      and so would the item itself. */
  lemma RemovalKeepsNoOrphan(items: seq<Item>, id: Id, x: Item)
    requires Acyclic(items) && x in items && x.parent.Some?
    requires x.id !in RemovalIds(items, id)
    ensures x.parent.value !in RemovalIds(items, id)
  {
    var p := x.parent.value;
    if p in RemovalIds(items, id) {
      ChildIsDescendant(items, p, x);
      if p != id {
        var c :| c in AllChildren(items, id) && c.id == p;
        AllChildrenTransitive(items, id, c, x);
      } else {
        ChildIsDescendant(items, id, x);
      }
      assert false;
    }
  }

  /** A filtered array no longer resolves a removed id, nor an id that did
      not resolve before. */
  lemma WithoutMisses(s: seq<Item>, ids: set<Id>, k: Id)
    requires k in ids || Lookup(s, k).None?
    ensures Lookup(Without(s, ids), k).None?
  {
  }

  /** After removing `id`, neither `id` nor any descendant's id resolves. */
  lemma RemovalGone(items: seq<Item>, id: Id)
    requires Acyclic(items)
    ensures var after := Without(items, RemovalIds(items, id));
      && Lookup(after, id).None?
      && (forall c :: c in AllChildren(items, id) ==> Lookup(after, c.id).None?)
  {
    var ids := RemovalIds(items, id);
    WithoutMisses(items, ids, id);
    forall c | c in AllChildren(items, id) ensures Lookup(Without(items, ids), c.id).None? {
      assert c.id in ids;
      WithoutMisses(items, ids, c.id);
    }
  }

  /** After removing `id`, no remaining item names a removed id as its
      parent. */
  lemma RemovalNoOrphans(items: seq<Item>, id: Id)
    requires Acyclic(items)
    ensures var after := Without(items, RemovalIds(items, id));
      forall x :: x in after && x.parent.Some? ==> x.parent.value !in RemovalIds(items, id)
  {
    forall x | x in Without(items, RemovalIds(items, id)) && x.parent.Some?
      ensures x.parent.value !in RemovalIds(items, id)
    {
      RemovalKeepsNoOrphan(items, id, x);
    }
  }

  /** After removing `id`, neither `id` nor any descendant's id resolves,
      every other item is still there, and no remaining item names a deleted
      id as its parent (the delete cascades down the whole subtree); what
      remains is still acyclic. */
  lemma RemovalCascades(items: seq<Item>, id: Id)
    requires Acyclic(items)
    ensures var after := Without(items, RemovalIds(items, id));
      && Lookup(after, id).None?
      && (forall c :: c in AllChildren(items, id) ==> Lookup(after, c.id).None?)
      && (forall x :: x in items && x.id !in RemovalIds(items, id) ==> x in after)
      && (forall x :: x in after && x.parent.Some? ==> x.parent.value !in RemovalIds(items, id))
      && Acyclic(after)
  {
    RemovalGone(items, id);
    RemovalNoOrphans(items, id);
    AcyclicSubset(items, Without(items, RemovalIds(items, id)));
  }

  // ---------------------------------------------------------------------
  // Insertion and update
  // ---------------------------------------------------------------------

  /** An appended item is found under its id, lookups of other ids are
      unchanged, and it is the last child of its parent. */
  lemma AppendFound(s: seq<Item>, x: Item)
    ensures Lookup(s + [x], x.id) == Some(x)
    ensures forall k :: k != x.id ==> Lookup(s + [x], k) == Lookup(s, k)
    ensures x.parent.Some? ==> Children(s + [x], x.parent.value) == Children(s, x.parent.value) + [x]
    ensures forall p :: x.parent != Some(p) ==> Children(s + [x], p) == Children(s, p)
  {
    forall k ensures Lookup(s + [x], k) == if k == x.id then Some(x) else Lookup(s, k) {
      LookupAppend(s, x, k);
    }
    forall p ensures Children(s + [x], p) == if x.parent == Some(p) then Children(s, p) + [x] else Children(s, p) {
      ChildrenAppend(s, x, p);
    }
  }

  lemma LookupAppend(s: seq<Item>, x: Item, k: Id)
    ensures Lookup(s + [x], k) == if k == x.id then Some(x) else Lookup(s, k)
  {
    SnocSplit(s, x);
  }

  lemma ChildrenAppend(s: seq<Item>, x: Item, p: Id)
    ensures Children(s + [x], p) == if x.parent == Some(p) then Children(s, p) + [x] else Children(s, p)
  {
    ChildrenConcat(s, [x], p);
    assert [x][1..] == [];
    ConcatNothing(Children(s, p));
  }

  /** Two arrays with the same id at every position agree on every lookup
      position. */
  lemma SameIdsSameLastIndex(s: seq<Item>, t: seq<Item>, k: Id)
    requires |s| == |t| && forall j :: 0 <= j < |s| ==> s[j].id == t[j].id
    ensures LastIndexOf(s, k) == LastIndexOf(t, k)
  {
  }

  /** Update never creates or deletes an id: the same ids resolve before and
      after. When the id is absent the array is unchanged. When it is present,
      the update is what a lookup sees unless a later item has the same id. */
  lemma UpdateKeepsIds(s: seq<Item>, u: Item)
    ensures var i := FindIndex(s, u.id);
      && (i < 0 <==> Lookup(s, u.id).None?)
      && var t := if i < 0 then s else s[i := u];
      && |t| == |s|
      && (forall k :: Lookup(t, k).Some? <==> Lookup(s, k).Some?)
      && (i >= 0 ==> Lookup(t, u.id) == if i == LastIndexOf(s, u.id) then Some(u) else Lookup(s, u.id))
  {
    var i := FindIndex(s, u.id);
    if i >= 0 {
      var t := s[i := u];
      forall k ensures LastIndexOf(t, k) == LastIndexOf(s, k) {
        SameIdsSameLastIndex(s, t, k);
      }
    }
  }

  // ---------------------------------------------------------------------
  // Sequence identities
  // ---------------------------------------------------------------------

  // Stated once here so that proofs over walk and filter terms cite them
  // instead of leaving the solver to rediscover them next to large terms.

  lemma ConsSplit(a: seq<Item>, b: seq<Item>)
    requires a != []
    ensures (a + b)[0] == a[0] && (a + b)[1..] == a[1..] + b
  {
  }

  lemma NilConcat(b: seq<Item>)
    ensures [] + b == b
  {
  }

  lemma ConcatAssoc(h: seq<Item>, p: seq<Item>, q: seq<Item>)
    ensures h + (p + q) == (h + p) + q
  {
  }

  lemma SnocAssoc(a: seq<Item>, b: seq<Item>, x: Item)
    ensures a + (b + [x]) == (a + b) + [x]
  {
  }

  lemma LastSplit(b: seq<Item>)
    requires b != []
    ensures b == b[..|b| - 1] + [b[|b| - 1]]
  {
  }

  lemma SnocSplit(s: seq<Item>, x: Item)
    ensures (s + [x])[..|s|] == s && (s + [x])[|s|] == x
  {
  }

  lemma ConcatNothing(s: seq<Item>)
    ensures s + [] == s
  {
  }
}
