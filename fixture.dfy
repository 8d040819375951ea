/** The store's test fixture, 1 <- '2' <- {4, 5, 6} and 4 <- {7, 8}, where
    '2' is a string id and every other id a number, and the answers the
    store gives on it. */
module StoreFixture {
  import opened Types
  import opened StoreModel
  import opened TreeStore

  const I1 := Item(Num(1), None, "Айтем 1")
  const I2 := Item(Str("2"), Some(Num(1)), "Айтем 2")
  const I4 := Item(Num(4), Some(Str("2")), "Айтем 4")
  const I5 := Item(Num(5), Some(Str("2")), "Айтем 5")
  const I6 := Item(Num(6), Some(Str("2")), "Айтем 6")
  const I7 := Item(Num(7), Some(Num(4)), "Айтем 7")
  const I8 := Item(Num(8), Some(Num(4)), "Айтем 8")

  // The fixture array, built one item at a time from its end.
  const T8: seq<Item> := [I8]
  const T7: seq<Item> := [I7] + T8
  const T6: seq<Item> := [I6] + T7
  const T5: seq<Item> := [I5] + T6
  const T4: seq<Item> := [I4] + T5
  const T2: seq<Item> := [I2] + T4

  /** The items 1, '2', 4, 5, 6, 7, 8 in this order. */
  function TestItems(): seq<Item>
  {
    [I1] + T2
  }

  /** A rank that grows along every parent link of the fixture. */
  function FixtureRank(k: Id): nat
  {
    if k == Num(1) then 3 else if k == Str("2") then 2 else if k == Num(4) then 1 else 0
  }

  lemma RankedCons(x: Item, s: seq<Item>, rank: Id -> nat)
    requires RankedBy(s, rank)
    requires x.parent.Some? ==> rank(x.id) < rank(x.parent.value)
    ensures RankedBy([x] + s, rank)
  {
    forall i | 0 <= i < |[x] + s| && ([x] + s)[i].parent.Some?
      ensures rank(([x] + s)[i].id) < rank(([x] + s)[i].parent.value)
    {
      if i > 0 {
        assert ([x] + s)[i] == s[i - 1];
      }
    }
  }

  lemma UniqueCons(x: Item, s: seq<Item>)
    requires UniqueIds(s)
    requires forall j :: 0 <= j < |s| ==> s[j].id != x.id
    ensures UniqueIds([x] + s)
  {
    forall i, j | 0 <= i < j < |[x] + s| ensures ([x] + s)[i].id != ([x] + s)[j].id {
      assert ([x] + s)[j] == s[j - 1];
      if i > 0 {
        assert ([x] + s)[i] == s[i - 1];
      }
    }
  }

  /** The fixture has no parent cycle. */
  lemma FixtureAcyclic()
    ensures Acyclic(TestItems())
  {
    var rank := FixtureRank;
    assert T8 == [I8] + [];
    RankedCons(I8, [], rank);
    RankedCons(I7, T8, rank);
    RankedCons(I6, T7, rank);
    RankedCons(I5, T6, rank);
    RankedCons(I4, T5, rank);
    RankedCons(I2, T4, rank);
    RankedCons(I1, T2, rank);
  }

  /** No two items of the fixture share an id. */
  lemma FixtureUniqueIds()
    ensures UniqueIds(TestItems())
  {
    assert T8 == [I8] + [];
    UniqueCons(I8, []);
    UniqueCons(I7, T8);
    UniqueCons(I6, T7);
    UniqueCons(I5, T6);
    UniqueCons(I4, T5);
    UniqueCons(I2, T4);
    UniqueCons(I1, T2);
  }

  /** The fixture has no parent cycle and no repeated id. */
  lemma FixtureWellFormed()
    ensures Acyclic(TestItems()) && UniqueIds(TestItems())
  {
    FixtureAcyclic();
    FixtureUniqueIds();
  }

  /** Every item of the fixture is what its own id resolves to. */
  lemma FixtureResolves(x: Item)
    requires x in TestItems()
    ensures Lookup(TestItems(), x.id) == Some(x)
  {
    FixtureUniqueIds();
    LookupUnique(TestItems(), x);
  }

  /** The part of the children filter contributed by one item. */
  function Keep(x: Item, id: Id): seq<Item>
  {
    if x.parent == Some(id) then [x] else []
  }

  lemma ChildrenCons(x: Item, s: seq<Item>, id: Id)
    ensures Children([x] + s, id) == Keep(x, id) + Children(s, id)
  {
    assert ([x] + s)[0] == x && ([x] + s)[1..] == s;
  }

  /** The part of the removal filter contributed by one item. */
  function Drop(x: Item, ids: set<Id>): seq<Item>
  {
    if x.id in ids then [] else [x]
  }

  lemma WithoutCons(x: Item, s: seq<Item>, ids: set<Id>)
    ensures Without([x] + s, ids) == Drop(x, ids) + Without(s, ids)
  {
    assert ([x] + s)[0] == x && ([x] + s)[1..] == s;
  }

  /** The children filter on the fixture, item by item. */
  lemma FixtureChildrenOf(id: Id)
    ensures Children(TestItems(), id) ==
      Keep(I1, id) + (Keep(I2, id) + (Keep(I4, id) + (Keep(I5, id) + (Keep(I6, id) + (Keep(I7, id) + Keep(I8, id))))))
  {
    ChildrenCons(I8, [], id);
    assert T8 == [I8] + [];
    assert Keep(I8, id) + [] == Keep(I8, id);
    ChildrenCons(I7, T8, id);
    ChildrenCons(I6, T7, id);
    ChildrenCons(I5, T6, id);
    ChildrenCons(I4, T5, id);
    ChildrenCons(I2, T4, id);
    ChildrenCons(I1, T2, id);
  }

  /** Point lookups: 7 resolves to its item, 100 to nothing. */
  lemma FixtureLookup(seven: Id, absent: Id)
    requires seven == Num(7) && absent == Num(100)
    ensures Lookup(TestItems(), seven) == Some(I7)
    ensures Lookup(TestItems(), absent) == None
  {
    FixtureResolves(I7);
  }

  /** The children of 4, in array order. */
  lemma FixtureChildrenOfFour(id: Id)
    requires id == Num(4)
    ensures Children(TestItems(), id) == [I7, I8]
  {
    FixtureChildrenOf(id);
    assert Keep(I1, id) == [] && Keep(I2, id) == [] && Keep(I4, id) == [];
    assert Keep(I5, id) == [] && Keep(I6, id) == [];
    assert Keep(I7, id) == [I7] && Keep(I8, id) == [I8];
    Two(I7, I8);
  }

  lemma KeepUnderTwo(id: Id)
    requires id == Str("2")
    ensures Keep(I1, id) == [] && Keep(I2, id) == []
    ensures Keep(I4, id) == [I4] && Keep(I5, id) == [I5] && Keep(I6, id) == [I6]
    ensures Keep(I7, id) == [] && Keep(I8, id) == []
  {
  }

  /** The children of the string id '2', in array order. */
  lemma FixtureChildrenOfTwo(id: Id)
    requires id == Str("2")
    ensures Children(TestItems(), id) == [I4, I5, I6]
  {
    FixtureChildrenOf(id);
    KeepUnderTwo(id);
    var tail := Keep(I7, id) + Keep(I8, id);
    assert tail == [];
    assert Keep(I6, id) + tail == [I6];
    Three(I4, I5, I6);
  }

  /** The number 2 names no item as its child: ids are compared strictly. */
  lemma FixtureNoChildrenOfNumberTwo()
    ensures Children(TestItems(), Num(2)) == []
  {
    FixtureChildrenOf(Num(2));
    KeepNothing(Num(2));
  }

  lemma KeepNothing(id: Id)
    requires id != Num(1) && id != Str("2") && id != Num(4)
    ensures Keep(I1, id) == [] && Keep(I2, id) == [] && Keep(I4, id) == []
    ensures Keep(I5, id) == [] && Keep(I6, id) == [] && Keep(I7, id) == [] && Keep(I8, id) == []
  {
  }

  /** An id that no item names as its parent has no children. */
  lemma FixtureLeaf(n: int)
    requires n == 5 || n == 6 || n == 7 || n == 8
    ensures Children(TestItems(), Num(n)) == []
  {
    FixtureChildrenOf(Num(n));
    KeepNothing(Num(n));
  }

  /** The walk below a leaf of the fixture is empty. */
  lemma FixtureLeafWalk(n: int)
    requires n == 5 || n == 6 || n == 7 || n == 8
    ensures Acyclic(TestItems())
    ensures AllChildren(TestItems(), Num(n)) == []
  {
    FixtureWellFormed();
    FixtureLeaf(n);
  }

  /** The walk of a one-item stack. */
  lemma SubtreesSingle(items: seq<Item>, a: Item)
    requires Acyclic(items)
    ensures Subtrees(items, [a]) == [a] + AllChildren(items, a.id)
  {
    SubtreesStep(items, [], a);
    OneAfterNothing(a);
    ConcatNothing([a] + AllChildren(items, a.id));
  }

  /** The walk below two leaves pops the second one first. */
  lemma TwoLeavesWalk(items: seq<Item>, a: Item, b: Item)
    requires Acyclic(items)
    requires AllChildren(items, a.id) == [] && AllChildren(items, b.id) == []
    ensures Subtrees(items, [a, b]) == [b, a]
  {
    SubtreesSingle(items, a);
    Two(a, b);
    SubtreesStep(items, [a], b);
    TwoLeavesShape(a, b);
  }

  /** The walk below 4 pops 8 before 7. */
  lemma FixtureBelowFour(id: Id)
    requires id == Num(4)
    ensures Acyclic(TestItems())
    ensures AllChildren(TestItems(), id) == [I8, I7]
  {
    FixtureWellFormed();
    FixtureChildrenOfFour(id);
    FixtureLeafWalk(7);
    FixtureLeafWalk(8);
    TwoLeavesWalk(TestItems(), I7, I8);
  }

  /** The walk below '2': one sibling after another, the last one first,
      each followed by its own subtree. */
  lemma ThreeSiblingsWalk(items: seq<Item>, a: Item, b: Item, c: Item, below: seq<Item>)
    requires Acyclic(items)
    requires AllChildren(items, a.id) == below
    requires AllChildren(items, b.id) == [] && AllChildren(items, c.id) == []
    ensures Subtrees(items, [a, b, c]) == [c, b, a] + below
  {
    SubtreesSingle(items, a);
    Two(a, b);
    SubtreesStep(items, [a], b);
    TwoPlusOne(a, b, c);
    SubtreesStep(items, [a, b], c);
    ThreeSiblingsShape(a, b, c, below);
  }

  /** The stack walk below '2' visits the last sibling first. */
  lemma FixtureAllChildren(id: Id)
    requires id == Str("2")
    ensures Acyclic(TestItems())
    ensures AllChildren(TestItems(), id) == [I6, I5, I4, I8, I7]
  {
    FixtureBelowFour(Num(4));
    FixtureLeafWalk(5);
    FixtureLeafWalk(6);
    FixtureChildrenOfTwo(id);
    ThreeSiblingsWalk(TestItems(), I4, I5, I6, [I8, I7]);
    ThreePlusTwo(I6, I5, I4, I8, I7);
  }

  /** The chain of 4: the root 1, then '2', then 4. */
  lemma FixtureChainOfFour(x: Item)
    requires x == I4
    ensures Acyclic(TestItems())
    ensures Ancestors(TestItems(), x) == [I1, I2, I4]
  {
    var t := TestItems();
    FixtureAcyclic();
    AncestorsTop(t, I1);
    FixtureResolves(I1);
    AncestorsStep(t, I2, I1);
    Two(I1, I2);
    FixtureResolves(I2);
    AncestorsStep(t, x, I2);
    TwoPlusOne(I1, I2, I4);
  }

  /** The ancestor chain of 7 runs from the root 1; a root's chain is itself. */
  lemma FixtureAllParents(seven: Id, one: Id)
    requires seven == Num(7) && one == Num(1)
    ensures Acyclic(TestItems())
    ensures AllParents(TestItems(), seven) == [I1, I2, I4, I7]
    ensures AllParents(TestItems(), one) == [I1]
  {
    var t := TestItems();
    FixtureChainOfFour(I4);
    FixtureResolves(I4);
    AncestorsStep(t, I7, I4);
    ThreePlusOne(I1, I2, I4, I7);
    FixtureResolves(I7);
    FixtureResolves(I1);
    AncestorsTop(t, I1);
  }

  /** The ids of an item and of two more. */
  lemma IdsOfThree(x: Item, a: Item, b: Item, k: Id)
    ensures k in {x.id} + (set c | c in [a, b] :: c.id) <==> k == x.id || k == a.id || k == b.id
  {
    assert a in [a, b] && b in [a, b];
  }

  /** The removal filter on the fixture, item by item. */
  lemma FixtureWithoutOf(ids: set<Id>)
    ensures Without(TestItems(), ids) ==
      Drop(I1, ids) + (Drop(I2, ids) + (Drop(I4, ids) + (Drop(I5, ids) + (Drop(I6, ids) + (Drop(I7, ids) + Drop(I8, ids))))))
  {
    WithoutCons(I8, [], ids);
    assert T8 == [I8] + [];
    assert Drop(I8, ids) + [] == Drop(I8, ids);
    WithoutCons(I7, T8, ids);
    WithoutCons(I6, T7, ids);
    WithoutCons(I5, T6, ids);
    WithoutCons(I4, T5, ids);
    WithoutCons(I2, T4, ids);
    WithoutCons(I1, T2, ids);
  }

  /** Filtering the fixture by the set of the ids 4, 7 and 8. */
  lemma FixtureWithout(ids: set<Id>)
    requires forall k :: k in ids <==> k == Num(4) || k == Num(7) || k == Num(8)
    ensures Without(TestItems(), ids) == [I1, I2, I5, I6]
  {
    assert Num(4) in ids && Num(7) in ids && Num(8) in ids;
    assert Num(1) !in ids && Str("2") !in ids && Num(5) !in ids && Num(6) !in ids;
    FixtureWithoutOf(ids);
    assert Drop(I1, ids) == [I1] && Drop(I2, ids) == [I2] && Drop(I4, ids) == [];
    assert Drop(I5, ids) == [I5] && Drop(I6, ids) == [I6];
    assert Drop(I7, ids) == [] && Drop(I8, ids) == [];
    KeptShape(I1, I2, I5, I6);
  }

  lemma RemovalIdsOf(items: seq<Item>, id: Id, self: Item, below: seq<Item>)
    requires Acyclic(items)
    requires Lookup(items, id) == Some(self) && AllChildren(items, id) == below
    ensures RemovalIds(items, id) == {self.id} + set c | c in below :: c.id
  {
  }

  /** Removing 4 removes the ids 4, 7 and 8 and no other id of the
      fixture. */
  lemma FixtureRemovalIds(id: Id, k: Id)
    requires id == Num(4)
    ensures Acyclic(TestItems())
    ensures k in RemovalIds(TestItems(), id) <==> k == Num(4) || k == Num(7) || k == Num(8)
  {
    FixtureBelowFour(id);
    FixtureResolves(I4);
    RemovalIdsOf(TestItems(), id, I4, [I8, I7]);
    IdsOfThree(I4, I8, I7, k);
  }

  /** Which ids of the fixture a removal of 4 takes, for every id at once. */
  lemma FixtureRemovalOfFour(id: Id)
    requires id == Num(4)
    ensures Acyclic(TestItems())
    ensures forall k :: k in RemovalIds(TestItems(), id) <==> k == Num(4) || k == Num(7) || k == Num(8)
  {
    FixtureWellFormed();
    forall k ensures k in RemovalIds(TestItems(), id) <==> k == Num(4) || k == Num(7) || k == Num(8) {
      FixtureRemovalIds(id, k);
    }
  }

  /** Removing 4 takes 7 and 8 with it and keeps the rest in order. */
  lemma FixtureRemove(id: Id)
    requires id == Num(4)
    ensures Acyclic(TestItems())
    ensures Without(TestItems(), RemovalIds(TestItems(), id)) == [I1, I2, I5, I6]
  {
    FixtureRemovalOfFour(id);
    FixtureWithout(RemovalIds(TestItems(), id));
  }

  /** Updating 7 finds it at position 5, the only position holding 7. */
  lemma FixtureUpdatePosition(seven: Id)
    requires seven == Num(7)
    ensures FindIndex(TestItems(), seven) == 5 && LastIndexOf(TestItems(), seven) == 5
  {
    FixtureUniqueIds();
    assert TestItems()[5].id == seven;
  }

  /** The search misses `k` in `[x] + s` when it misses it in `s` and `x`
      has another id. */
  lemma FindIndexCons(x: Item, s: seq<Item>, k: Id)
    requires x.id != k && FindIndex(s, k) == -1
    ensures FindIndex([x] + s, k) == -1
  {
    assert ([x] + s)[0] == x && ([x] + s)[1..] == s;
  }

  /** Updating 100 finds it nowhere. */
  lemma FixtureUpdateMissing(absent: Id)
    requires absent == Num(100)
    ensures FindIndex(TestItems(), absent) == -1
  {
    assert T8 == [I8] + [];
    FindIndexCons(I8, [], absent);
    FindIndexCons(I7, T8, absent);
    FindIndexCons(I6, T7, absent);
    FindIndexCons(I5, T6, absent);
    FindIndexCons(I4, T5, absent);
    FindIndexCons(I2, T4, absent);
    FindIndexCons(I1, T2, absent);
  }

  /** The items the store's tests add and update with. */
  const I9 := Item(Num(9), Some(Num(4)), "Айтем 9")
  const Renamed7 := Item(Num(7), Some(Num(4)), "Обновленный Айтем 7")
  const Absent100 := Item(Num(100), Some(Num(4)), "Несуществующий")

  /** Lookups and walks on a fresh store, as its tests do them. */
  method ScenarioQueries() returns (seven: Option<Item>, missing: Option<Item>,
                                    below: seq<Item>, chain: seq<Item>, rootChain: seq<Item>)
    ensures seven == Some(I7) && missing == None
    ensures below == [I6, I5, I4, I8, I7]
    ensures chain == [I1, I2, I4, I7] && rootChain == [I1]
  {
    var store := new Index(TestItems());
    FixtureLookup(Num(7), Num(100));
    seven := store.GetItem(Num(7));
    missing := store.GetItem(Num(100));
    FixtureAllChildren(Str("2"));
    below := store.GetAllChildren(Str("2"));
    FixtureAllParents(Num(7), Num(1));
    chain := store.GetAllParents(Num(7));
    rootChain := store.GetAllParents(Num(1));
  }

  /** The whole array, direct children and a walk below a leaf, as the
      store's tests query them. */
  method ScenarioChildren() returns (all: seq<Item>, ofFour: seq<Item>,
                                     ofEight: seq<Item>, belowSeven: seq<Item>)
    ensures all == TestItems()
    ensures ofFour == [I7, I8] && ofEight == []
    ensures belowSeven == []
  {
    var store := new Index(TestItems());
    all := store.GetAll();
    FixtureChildrenOfFour(Num(4));
    ofFour := store.GetChildren(Num(4));
    FixtureLeaf(8);
    ofEight := store.GetChildren(Num(8));
    FixtureLeafWalk(7);
    belowSeven := store.GetAllChildren(Num(7));
  }

  /** An added item is found and listed among its parent's children. */
  method ScenarioAdd() returns (found: Option<Item>, ofFour: seq<Item>)
    ensures found == Some(I9) && I9 in ofFour
  {
    var store := new Index(TestItems());
    store.AddItem(I9);
    AppendFound(TestItems(), I9);
    found := store.GetItem(Num(9));
    ofFour := store.GetChildren(Num(4));
  }

  /** After the removal of 4 none of 4, 7 and 8 resolves. */
  lemma FixtureGoneAfterRemoval(k: Id)
    requires k == Num(4) || k == Num(7) || k == Num(8)
    ensures Lookup([I1, I2, I5, I6], k).None?
  {
  }

  /** Removing 4 removes 7 and 8 as well. */
  method ScenarioRemove() returns (left: seq<Item>, four: Option<Item>,
                                   seven: Option<Item>, eight: Option<Item>)
    ensures left == [I1, I2, I5, I6]
    ensures four == None && seven == None && eight == None
  {
    FixtureRemove(Num(4));
    var store := new Index(TestItems());
    store.RemoveItem(Num(4));
    left := store.GetAll();
    FixtureGoneAfterRemoval(Num(4));
    FixtureGoneAfterRemoval(Num(7));
    FixtureGoneAfterRemoval(Num(8));
    four := store.GetItem(Num(4));
    seven := store.GetItem(Num(7));
    eight := store.GetItem(Num(8));
  }

  /** Updating an existing id replaces it; updating a missing id creates
      nothing. */
  method ScenarioUpdate() returns (updated: Option<Item>, missing: Option<Item>)
    ensures updated == Some(Renamed7) && missing == None
  {
    FixtureUpdatePosition(Num(7));
    UpdateKeepsIds(TestItems(), Renamed7);
    var store := new Index(TestItems());
    store.UpdateItem(Renamed7);
    updated := store.GetItem(Num(7));

    FixtureLookup(Num(7), Num(100));
    FixtureUpdateMissing(Num(100));
    store := new Index(TestItems());
    store.UpdateItem(Absent100);
    missing := store.GetItem(Num(100));
  }

  // ---------------------------------------------------------------------
  // Literal shapes
  // ---------------------------------------------------------------------

  // Small identities between sequence displays, stated once so that the
  // fixture proofs cite them instead of unfolding long literal terms.

  lemma Two(a: Item, b: Item)
    ensures [a] + [b] == [a, b]
  {
  }

  lemma Three(a: Item, b: Item, c: Item)
    ensures [a] + ([b] + [c]) == [a, b, c]
  {
  }

  lemma ThreePlusTwo(a: Item, b: Item, c: Item, d: Item, e: Item)
    ensures [a, b, c] + [d, e] == [a, b, c, d, e]
  {
  }

  lemma OneAfterNothing(a: Item)
    ensures [] + [a] == [a]
  {
  }

  lemma TwoLeavesShape(a: Item, b: Item)
    ensures [b] + [] + ([a] + []) == [b, a]
  {
  }

  lemma ThreeSiblingsShape(a: Item, b: Item, c: Item, below: seq<Item>)
    ensures [c] + [] + ([b] + [] + ([a] + below)) == [c, b, a] + below
  {
  }

  lemma TwoPlusOne(a: Item, b: Item, c: Item)
    ensures [a, b] + [c] == [a, b, c]
  {
  }

  lemma ThreePlusOne(a: Item, b: Item, c: Item, d: Item)
    ensures [a, b, c] + [d] == [a, b, c, d]
  {
  }

  lemma KeptShape(a: Item, b: Item, c: Item, d: Item)
    ensures [a] + ([b] + ([] + ([c] + ([d] + ([] + []))))) == [a, b, c, d]
  {
  }
}
