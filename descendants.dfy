/** What the descendant walk finds, stated against an independent, upward
    notion of descent: on an acyclic array with unique ids it emits every item
    that descends from the given id, and each of them once. */
module Descendants {
  import opened Types
  import opened StoreModel

  /** `x` descends from `id`: its parent id is `id`, or its parent id
      resolves to an item that descends from `id`. A descendant ranks below
      the id it descends from. */
  ghost predicate DescendsFrom(items: seq<Item>, x: Item, id: Id): (r: bool)
    requires Acyclic(items) && x in items
    ensures r ==> x.parent.Some? && Rank(items)(x.id) < Rank(items)(id)
    decreases RankBound(items, items) - Rank(items)(x.id)
  {
    match x.parent
    case None => false
    case Some(p) =>
      p == id ||
      match Lookup(items, p)
      case None => false
      case Some(q) =>
        RankDrops(items, x, p);
        RankBelowTop(items, q);
        DescendsFrom(items, q, id)
  }

  /** An item never descends from a sibling's id. */
  lemma SiblingNotBelow(items: seq<Item>, t: Item, s: Item, p: Id)
    requires Acyclic(items) && t in items && s in items
    requires t.parent == Some(p) && s.parent == Some(p)
    ensures !DescendsFrom(items, t, s.id)
  {
    RankDrops(items, s, p);
  }

  /** The upward chain of an item is a single line: if it passes below two
      different ids, one of them resolves to an item below the other. */
  lemma {:induction false} ChainIsLinear(items: seq<Item>, x: Item, a: Id, b: Id)
    requires Acyclic(items) && x in items && a != b
    requires DescendsFrom(items, x, a) && DescendsFrom(items, x, b)
    ensures || (Lookup(items, a).Some? && Lookup(items, a).value in items
                && DescendsFrom(items, Lookup(items, a).value, b))
            || (Lookup(items, b).Some? && Lookup(items, b).value in items
                && DescendsFrom(items, Lookup(items, b).value, a))
    decreases RankBound(items, items) - Rank(items)(x.id)
  {
    var p := x.parent.value;
    if p != a && p != b {
      var q := Lookup(items, p).value;
      RankDrops(items, x, p);
      RankBelowTop(items, q);
      ChainIsLinear(items, q, a, b);
    }
  }

  /** Descending from a child of `id` is descending from `id`, when ids are
      unique (so that the child's id resolves to the child itself). */
  lemma {:induction false} DescendsThroughChild(items: seq<Item>, x: Item, c: Item, id: Id)
    requires Acyclic(items) && UniqueIds(items)
    requires x in items && c in items && c.parent == Some(id)
    requires DescendsFrom(items, x, c.id)
    ensures DescendsFrom(items, x, id)
    decreases RankBound(items, items) - Rank(items)(x.id)
  {
    var p := x.parent.value;
    RankDrops(items, x, p);
    if p == c.id {
      LookupUnique(items, c);
      RankBelowTop(items, c);
      assert DescendsFrom(items, c, id);
    } else {
      var q := Lookup(items, p).value;
      RankBelowTop(items, q);
      DescendsThroughChild(items, q, c, id);
    }
  }

  /** With unique ids, the walk emits only descendants. */
  lemma {:induction false} WalkSound(items: seq<Item>, id: Id, x: Item)
    requires Acyclic(items) && UniqueIds(items)
    requires x in AllChildren(items, id)
    ensures x in items && DescendsFrom(items, x, id)
    decreases Rank(items)(id)
  {
    var cs := Children(items, id);
    SubtreesMembers(items, cs, x);
    var i :| 0 <= i < |cs| && (x == cs[i] || x in AllChildren(items, cs[i].id));
    if x != cs[i] {
      RankDrops(items, cs[i], id);
      WalkSound(items, cs[i].id, x);
      DescendsThroughChild(items, x, cs[i], id);
    }
  }

  /** The walk emits every descendant (ids need not be unique for this). */
  lemma {:induction false} WalkComplete(items: seq<Item>, id: Id, x: Item)
    requires Acyclic(items) && x in items && DescendsFrom(items, x, id)
    ensures x in AllChildren(items, id)
    decreases RankBound(items, items) - Rank(items)(x.id)
  {
    var p := x.parent.value;
    if p == id {
      ChildIsDescendant(items, id, x);
    } else {
      var q := Lookup(items, p).value;
      RankDrops(items, x, p);
      RankBelowTop(items, q);
      WalkComplete(items, id, q);
      ChildIsDescendant(items, q.id, x);
      AllChildrenTransitive(items, id, q, x);
    }
  }

  /** Joining two arrays without repeated ids and without a shared id. */
  lemma UniqueIdsConcat(a: seq<Item>, b: seq<Item>)
    requires UniqueIds(a) && UniqueIds(b)
    requires forall x, y :: x in a && y in b ==> x.id != y.id
    ensures UniqueIds(a + b)
  {
    forall i, j | 0 <= i < j < |a + b| ensures (a + b)[i].id != (a + b)[j].id {
      if j < |a| {
        assert (a + b)[i] == a[i] && (a + b)[j] == a[j];
      } else if i >= |a| {
        assert (a + b)[i] == b[i - |a|] && (a + b)[j] == b[j - |a|];
      } else {
        assert (a + b)[i] in a && (a + b)[j] in b;
      }
    }
  }

  /** Two items of a unique-id array with the same id are the same item. */
  lemma SameIdSameItem(items: seq<Item>, x: Item, y: Item)
    requires UniqueIds(items) && x in items && y in items && x.id == y.id
    ensures x == y
  {
    LookupUnique(items, x);
    LookupUnique(items, y);
  }

  /** Nothing below one sibling has the id of another sibling. */
  lemma SiblingNotBelowOther(items: seq<Item>, p: Id, t: Item, s: Item, z: Item)
    requires Acyclic(items) && UniqueIds(items)
    requires t in items && s in items && t.parent == Some(p) && s.parent == Some(p)
    requires z in AllChildren(items, s.id)
    ensures z.id != t.id
  {
    AllChildrenBelow(items, s.id, z);
    if z.id == t.id {
      SameIdSameItem(items, z, t);
      WalkSound(items, s.id, z);
      SiblingNotBelow(items, t, s, p);
    }
  }

  /** The subtrees below two different siblings share no id. */
  lemma SiblingSubtreesApart(items: seq<Item>, p: Id, t: Item, s: Item, y: Item, z: Item)
    requires Acyclic(items) && UniqueIds(items)
    requires t in items && s in items && t.parent == Some(p) && s.parent == Some(p)
    requires t.id != s.id
    requires y in AllChildren(items, t.id) && z in AllChildren(items, s.id)
    ensures y.id != z.id
  {
    AllChildrenBelow(items, t.id, y);
    AllChildrenBelow(items, s.id, z);
    if y.id == z.id {
      SameIdSameItem(items, y, z);
      WalkSound(items, t.id, y);
      WalkSound(items, s.id, z);
      ChainIsLinear(items, z, t.id, s.id);
      LookupUnique(items, t);
      LookupUnique(items, s);
      SiblingNotBelow(items, t, s, p);
      SiblingNotBelow(items, s, t, p);
    }
  }

  /** A prefix of an array without repeated ids has none. */
  lemma UniqueIdsPrefix(s: seq<Item>, n: nat)
    requires UniqueIds(s) && n <= |s|
    ensures UniqueIds(s[..n])
  {
    forall i, j | 0 <= i < j < n ensures s[..n][i].id != s[..n][j].id {
      assert s[..n][i] == s[i] && s[..n][j] == s[j];
    }
  }

  /** What the walk emits for the last root and below it shares no id with
      what it emits for the roots beneath it on the stack. */
  lemma TopApartFromRest(items: seq<Item>, p: Id, roots: seq<Item>, x: Item, z: Item)
    requires Acyclic(items) && UniqueIds(items) && UniqueIds(roots) && roots != []
    requires forall c :: c in roots ==> c in items && c.parent == Some(p)
    requires var t := roots[|roots| - 1];
      x == t || x in AllChildren(items, t.id)
    requires z in Subtrees(items, roots[..|roots| - 1])
    ensures x.id != z.id
  {
    var n := |roots| - 1;
    var t, rest := roots[n], roots[..n];
    SubtreesMembers(items, rest, z);
    var i :| 0 <= i < |rest| && (z == rest[i] || z in AllChildren(items, rest[i].id));
    var s := rest[i];
    assert roots[i] == s && s.id != t.id;
    assert t in roots && s in roots;
    if x == t {
      if z != s {
        SiblingNotBelowOther(items, p, t, s, z);
      }
    } else if z == s {
      SiblingNotBelowOther(items, p, s, t, x);
    } else {
      SiblingSubtreesApart(items, p, t, s, x, z);
    }
  }

  /** The walk below siblings of one parent never emits an id twice. */
  lemma {:induction false} SubtreesUnique(items: seq<Item>, p: Id, roots: seq<Item>)
    requires Acyclic(items) && UniqueIds(items) && UniqueIds(roots)
    requires forall c :: c in roots ==> c in items && c.parent == Some(p)
    ensures UniqueIds(Subtrees(items, roots))
    decreases RankBound(items, roots), |roots|
  {
    if roots != [] {
      var n := |roots| - 1;
      var t, rest := roots[n], roots[..n];
      var below := AllChildren(items, t.id);
      LastSplit(roots);
      SubtreesStep(items, rest, t);
      assert t in roots;
      ChildrenRankBound(items, t.id);
      BelowRankBound(items, roots, t);
      ChildrenUnique(items, t.id);
      SubtreesUnique(items, t.id, Children(items, t.id));
      UniqueIdsPrefix(roots, n);
      forall c | c in rest ensures c in roots { }
      SubtreesUnique(items, p, rest);
      var later := Subtrees(items, rest);
      forall y | y in below ensures y.id != t.id {
        AllChildrenBelow(items, t.id, y);
      }
      forall x, z | x in [t] + below && z in later ensures x.id != z.id {
        TopApartFromRest(items, p, roots, x, z);
      }
      UniqueIdsConcat([t], below);
      UniqueIdsConcat([t] + below, later);
    }
  }

  /** On an acyclic array with unique ids, the walk from `id` emits exactly
      the items that descend from `id`, each of them once. */
  lemma WalkExactlyOnce(items: seq<Item>, id: Id, x: Item)
    requires Acyclic(items) && UniqueIds(items)
    ensures x in AllChildren(items, id) <==> x in items && DescendsFrom(items, x, id)
    ensures UniqueIds(AllChildren(items, id))
  {
    if x in AllChildren(items, id) {
      WalkSound(items, id, x);
    }
    if x in items && DescendsFrom(items, x, id) {
      WalkComplete(items, id, x);
    }
    ChildrenUnique(items, id);
    SubtreesUnique(items, id, Children(items, id));
  }
}
