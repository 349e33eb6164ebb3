/** QuadTree<T>: an adaptive point quadtree. Each node keeps up to four
    (key, point) entries in its own map; a full node whose sides both exceed
    the minimum dimension splits once into four quadrants and passes further
    points to the first quadrant that accepts them. */
module QuadTrees {
  import opened Seqs
  import opened Partition
  import opened QuadNodes

  /** How many entries a splittable node holds before it passes points on. */
  const NodeCapacity: nat := 4

  /** Every stored point lies inside the boundary of the node holding it. */
  ghost predicate PointsInside<T>(n: Node<T, Vec2>)
    decreases n
  {
    (forall k :: k in n.items ==> Contains(n.boundary, n.items[k])) &&
    match n.kids
    case NoKids => true
    case Kids(nw, ne, sw, se) => PointsInside(nw) && PointsInside(ne) && PointsInside(sw) && PointsInside(se)
  }

  /** The invariant every point quadtree keeps. */
  ghost predicate WellFormed<T>(n: Node<T, Vec2>)
  {
    WellShaped(n) && PointsInside(n)
  }

  /** insert(t, p): refuse a point outside the node; keep it locally while
      the node has room or is too small to split; otherwise split (once) and
      hand it to the first quadrant that takes it. With exact arithmetic the
      quadrants cover the node, so an insert fails only outside the node. */
  function NodeInsert<T(==)>(n: Node<T, Vec2>, t: T, p: Vec2): (r: (Node<T, Vec2>, bool))
    requires WellShaped(n)
    ensures r.1 == Contains(n.boundary, p)
    ensures !r.1 ==> r.0 == n
    ensures r.0.boundary == n.boundary && WellShaped(r.0)
    decreases n.boundary.half.x.Floor, 5
  {
    if !Contains(n.boundary, p) then (n, false)
    else if StoresLocally(n) then (n.(items := n.items[t := p]), true)
    else
      SplitCovers(n, p);
      InsertIntoKids(Divided(n), 0, t, p)
  }

  /** A node keeps a new point itself while it has room or cannot split. */
  predicate StoresLocally<T(==)>(n: Node<T, Vec2>)
  {
    |n.items| < NodeCapacity || !Splittable(n.boundary)
  }

  /** Some child from i on, in NW, NE, SW, SE order, covers the point. */
  predicate SomeKidFrom<T(==)>(s: Node<T, Vec2>, i: nat, p: Vec2)
    requires s.kids.Kids?
    decreases 4 - i
  {
    i < 4 && (Contains(Kid(s, i).boundary, p) || SomeKidFrom(s, i + 1, p))
  }

  /** Offer the point to children i, i + 1, ... in NW, NE, SW, SE order and
      keep the first that accepts it. */
  function InsertIntoKids<T(==)>(s: Node<T, Vec2>, i: nat, t: T, p: Vec2): (r: (Node<T, Vec2>, bool))
    requires s.kids.Kids? && WellShaped(s) && i <= 4
    requires SomeKidFrom(s, i, p)
    ensures r.1 && r.0.boundary == s.boundary && WellShaped(r.0)
    decreases s.boundary.half.x.Floor, 4 - i
  {
    if i == 4 then
      assert false; (s, false)
    else
      KidShrinks(s, i);
      var (c, ok) := NodeInsert(Kid(s, i), t, p);
      if ok then
        WithKidShape(s, i, c);
        (WithKid(s, i, c), true)
      else
        InsertIntoKids(s, i + 1, t, p)
  }

  /** The step insert takes at a full, splittable node containing the point:
      divide it and offer the point to its children from the first. */
  lemma InsertSplits<T>(n: Node<T, Vec2>, t: T, p: Vec2)
    requires WellShaped(n) && Contains(n.boundary, p) && !StoresLocally(n)
    ensures Divided(n).kids.Kids? && WellShaped(Divided(n))
    ensures SomeKidFrom(Divided(n), 0, p)
    ensures NodeInsert(n, t, p) == InsertIntoKids(Divided(n), 0, t, p)
  {
    SplitCovers(n, p);
  }

  /** A node about to pass a point it contains on has a child covering it. */
  lemma SplitCovers<T>(n: Node<T, Vec2>, p: Vec2)
    requires WellShaped(n) && Contains(n.boundary, p) && Splittable(n.boundary)
    ensures Divided(n).kids.Kids? && WellShaped(Divided(n)) && SomeKidFrom(Divided(n), 0, p)
  {
    var s, b := Divided(n), n.boundary;
    DividedShape(n);
    KidQuadrants(s);
    QuadrantsCover(b, p);
    if Contains(NW(b), p) {
      SomeKidAt(s, 0, 0, p);
    } else if Contains(NE(b), p) {
      SomeKidAt(s, 0, 1, p);
    } else if Contains(SW(b), p) {
      SomeKidAt(s, 0, 2, p);
    } else {
      SomeKidAt(s, 0, 3, p);
    }
  }

  lemma {:induction false} SomeKidAt<T>(s: Node<T, Vec2>, i: nat, j: nat, p: Vec2)
    requires s.kids.Kids? && i <= j < 4 && Contains(Kid(s, j).boundary, p)
    ensures SomeKidFrom(s, i, p)
    decreases j - i
  {
    if i < j {
      SomeKidAt(s, i + 1, j, p);
    }
  }

  /** The step insert takes at child i: a child that accepts the point is put
      back; one that refuses it passes the point on to child i + 1. */
  lemma InsertKidsStep<T>(s: Node<T, Vec2>, i: nat, t: T, p: Vec2)
    requires s.kids.Kids? && WellShaped(s) && i < 4
    requires SomeKidFrom(s, i, p)
    ensures NodeInsert(Kid(s, i), t, p).1 ==>
      InsertIntoKids(s, i, t, p) == (WithKid(s, i, NodeInsert(Kid(s, i), t, p).0), true)
    ensures !NodeInsert(Kid(s, i), t, p).1 ==>
      SomeKidFrom(s, i + 1, p) && InsertIntoKids(s, i, t, p) == InsertIntoKids(s, i + 1, t, p)
  {
  }

  /** Insert stores every point inside the boundary of the node that keeps it. */
  lemma {:induction false} InsertKeepsInside<T>(n: Node<T, Vec2>, t: T, p: Vec2)
    requires WellShaped(n) && PointsInside(n)
    ensures PointsInside(NodeInsert(n, t, p).0)
    decreases n.boundary.half.x.Floor, 5
  {
    if Contains(n.boundary, p) && !StoresLocally(n) {
      InsertSplits(n, t, p);
      DividedInside(n);
      InsertIntoKidsKeepsInside(Divided(n), 0, t, p);
    }
  }

  lemma {:induction false} InsertIntoKidsKeepsInside<T>(s: Node<T, Vec2>, i: nat, t: T, p: Vec2)
    requires s.kids.Kids? && WellShaped(s) && i <= 4 && PointsInside(s)
    requires SomeKidFrom(s, i, p)
    ensures PointsInside(InsertIntoKids(s, i, t, p).0)
    decreases s.boundary.half.x.Floor, 4 - i
  {
    if i < 4 {
      InsertKidsStep(s, i, t, p);
      KidShrinks(s, i);
      var r := NodeInsert(Kid(s, i), t, p);
      if r.1 {
        KidWellFormed(s, i);
        InsertKeepsInside(Kid(s, i), t, p);
        KidsInside(s, i, r.0);
      } else {
        InsertIntoKidsKeepsInside(s, i + 1, t, p);
      }
    }
  }

  /** A successful insert stores (t, p). */
  lemma {:induction false} InsertStores<T>(n: Node<T, Vec2>, t: T, p: Vec2)
    requires WellShaped(n) && Contains(n.boundary, p)
    ensures (t, p) in Entries(NodeInsert(n, t, p).0)
    decreases n.boundary.half.x.Floor, 5
  {
    if StoresLocally(n) {
      PutStores(n, t, p);
    } else {
      InsertSplits(n, t, p);
      InsertIntoKidsStores(Divided(n), 0, t, p);
    }
  }

  lemma {:induction false} InsertIntoKidsStores<T>(s: Node<T, Vec2>, i: nat, t: T, p: Vec2)
    requires s.kids.Kids? && WellShaped(s) && i <= 4
    requires SomeKidFrom(s, i, p)
    ensures (t, p) in Entries(InsertIntoKids(s, i, t, p).0)
    decreases s.boundary.half.x.Floor, 4 - i
  {
    if i < 4 {
      InsertKidsStep(s, i, t, p);
      KidShrinks(s, i);
      var r := NodeInsert(Kid(s, i), t, p);
      if r.1 {
        InsertStores(Kid(s, i), t, p);
        WithKidHolds(s, i, r.0, (t, p));
      } else {
        InsertIntoKidsStores(s, i + 1, t, p);
      }
    }
  }

  /** A successful insert adds t to the keys and no other key. */
  lemma {:induction false} InsertAddsKey<T>(n: Node<T, Vec2>, t: T, p: Vec2)
    requires WellShaped(n) && Contains(n.boundary, p)
    ensures Keys(NodeInsert(n, t, p).0) == Keys(n) + {t}
    decreases n.boundary.half.x.Floor, 5
  {
    if StoresLocally(n) {
      PutAddsKey(n, t, p);
    } else {
      InsertSplits(n, t, p);
      DividedKeeps(n, t);
      InsertIntoKidsAddsKey(Divided(n), 0, t, p);
    }
  }

  lemma {:induction false} InsertIntoKidsAddsKey<T>(s: Node<T, Vec2>, i: nat, t: T, p: Vec2)
    requires s.kids.Kids? && WellShaped(s) && i <= 4
    requires SomeKidFrom(s, i, p)
    ensures Keys(InsertIntoKids(s, i, t, p).0) == Keys(s) + {t}
    decreases s.boundary.half.x.Floor, 4 - i
  {
    if i < 4 {
      InsertKidsStep(s, i, t, p);
      KidShrinks(s, i);
      var r := NodeInsert(Kid(s, i), t, p);
      if r.1 {
        InsertAddsKey(Kid(s, i), t, p);
        WithKidKeys(s, i, r.0, t);
      } else {
        InsertIntoKidsAddsKey(s, i + 1, t, p);
      }
    }
  }

  /** Insert leaves the entries under every other key as they were. */
  lemma {:induction false} InsertKeepsOthers<T>(n: Node<T, Vec2>, t: T, p: Vec2)
    requires WellShaped(n)
    ensures EntriesOtherThan(NodeInsert(n, t, p).0, t) == EntriesOtherThan(n, t)
    decreases n.boundary.half.x.Floor, 5
  {
    if Contains(n.boundary, p) {
      if StoresLocally(n) {
        PutKeepsOthers(n, t, p);
      } else {
        InsertSplits(n, t, p);
        DividedKeeps(n, t);
        InsertIntoKidsKeepsOthers(Divided(n), 0, t, p);
      }
    }
  }

  /** Storing (t, p) in a node's own map stores it in the subtree. */
  lemma PutStores<T>(n: Node<T, Vec2>, t: T, p: Vec2)
    ensures (t, p) in Entries(n.(items := n.items[t := p]))
  {
    assert (t, p) in n.items[t := p].Items;
  }

  /** Storing (t, p) in a node's own map adds t to the keys. */
  lemma PutAddsKey<T>(n: Node<T, Vec2>, t: T, p: Vec2)
    ensures Keys(n.(items := n.items[t := p])) == Keys(n) + {t}
  {
    assert n.items[t := p].Keys == n.items.Keys + {t};
  }

  /** Storing (t, p) under a key the subtree lacks adds exactly that entry. */
  lemma PutFresh<T>(n: Node<T, Vec2>, t: T, p: Vec2)
    requires t !in Keys(n)
    ensures Entries(n.(items := n.items[t := p])) == Entries(n) + multiset{(t, p)}
  {
    assert t !in n.items;
    MapPutFresh(n.items, t, p);
  }

  /** Storing (t, p) in a node's own map leaves the other keys' entries. */
  lemma PutKeepsOthers<T>(n: Node<T, Vec2>, t: T, p: Vec2)
    ensures EntriesOtherThan(n.(items := n.items[t := p]), t) == EntriesOtherThan(n, t)
  {
    assert n.items[t := p] - {t} == n.items - {t};
  }

  lemma {:induction false} InsertIntoKidsKeepsOthers<T>(s: Node<T, Vec2>, i: nat, t: T, p: Vec2)
    requires s.kids.Kids? && WellShaped(s) && i <= 4
    requires SomeKidFrom(s, i, p)
    ensures EntriesOtherThan(InsertIntoKids(s, i, t, p).0, t) == EntriesOtherThan(s, t)
    decreases s.boundary.half.x.Floor, 4 - i
  {
    if i < 4 {
      InsertKidsStep(s, i, t, p);
      KidShrinks(s, i);
      var r := NodeInsert(Kid(s, i), t, p);
      if r.1 {
        InsertKeepsOthers(Kid(s, i), t, p);
        WithKidOthers(s, i, r.0, t);
      } else {
        InsertIntoKidsKeepsOthers(s, i + 1, t, p);
      }
    }
  }

  /** Inserting a key not yet stored adds exactly the one entry (t, p). */
  lemma {:induction false} InsertFresh<T>(n: Node<T, Vec2>, t: T, p: Vec2)
    requires WellShaped(n) && Contains(n.boundary, p) && t !in Keys(n)
    ensures Entries(NodeInsert(n, t, p).0) == Entries(n) + multiset{(t, p)}
    decreases n.boundary.half.x.Floor, 5
  {
    if StoresLocally(n) {
      PutFresh(n, t, p);
    } else {
      InsertSplits(n, t, p);
      DividedKeeps(n, t);
      InsertIntoKidsFresh(Divided(n), 0, t, p);
    }
  }

  lemma {:induction false} InsertIntoKidsFresh<T>(s: Node<T, Vec2>, i: nat, t: T, p: Vec2)
    requires s.kids.Kids? && WellShaped(s) && i <= 4 && t !in Keys(s)
    requires SomeKidFrom(s, i, p)
    ensures Entries(InsertIntoKids(s, i, t, p).0) == Entries(s) + multiset{(t, p)}
    decreases s.boundary.half.x.Floor, 4 - i
  {
    if i < 4 {
      InsertKidsStep(s, i, t, p);
      KidShrinks(s, i);
      var k := Kid(s, i);
      var r := NodeInsert(k, t, p);
      if r.1 {
        KeyOfKid(s, i, t);
        InsertFresh(k, t, p);
        WithKidAdds(s, i, r.0, multiset{(t, p)});
      } else {
        InsertIntoKidsFresh(s, i + 1, t, p);
      }
    }
  }

  /** Dividing keeps every point inside its node: the new children are empty. */
  lemma DividedInside<T>(n: Node<T, Vec2>)
    requires PointsInside(n)
    ensures PointsInside(Divided(n))
  {
    if n.kids.NoKids? {
      var k := Divided(n).kids;
      assert PointsInside(k.nw) && PointsInside(k.ne) && PointsInside(k.sw) && PointsInside(k.se);
    }
  }

  /** Replacing a child by one whose points lie inside it keeps every point
      inside its node. */
  lemma KidsInside<T>(s: Node<T, Vec2>, i: nat, c: Node<T, Vec2>)
    requires s.kids.Kids? && i < 4 && PointsInside(s) && PointsInside(c)
    ensures PointsInside(WithKid(s, i, c))
  {
    var r := WithKid(s, i, c);
    assert PointsInside(Kid(s, 0)) && PointsInside(Kid(s, 1)) && PointsInside(Kid(s, 2)) && PointsInside(Kid(s, 3));
    assert PointsInside(Kid(r, 0)) && PointsInside(Kid(r, 1)) && PointsInside(Kid(r, 2)) && PointsInside(Kid(r, 3));
  }

  lemma KidWellFormed<T>(n: Node<T, Vec2>, i: nat)
    requires n.kids.Kids? && i < 4 && WellShaped(n) && PointsInside(n)
    ensures WellShaped(Kid(n, i)) && PointsInside(Kid(n, i))
  {
  }

  /** find(t, pos): the first node, searching the path of nodes whose
      boundary contains pos, whose own map holds t. */
  function NodeFind<T(==)>(n: Node<T, Vec2>, t: T, pos: Vec2): (r: Option<Node<T, Vec2>>)
    ensures r.Some? ==> Contains(n.boundary, pos) && t in r.value.items
    decreases NodeCount(n), 5
  {
    if !Contains(n.boundary, pos) then None
    else if t in n.items then Some(n)
    else if n.kids.NoKids? then None
    else FindInKids(n, 0, t, pos)
  }

  /** Search children i, i + 1, ... in NW, NE, SW, SE order. */
  function FindInKids<T(==)>(n: Node<T, Vec2>, i: nat, t: T, pos: Vec2): (r: Option<Node<T, Vec2>>)
    requires n.kids.Kids? && i <= 4
    ensures r.Some? ==> t in r.value.items
    decreases NodeCount(n), 4 - i
  {
    if i == 4 then None
    else
      var a := NodeFind(Kid(n, i), t, pos);
      if a.Some? then a else FindInKids(n, i + 1, t, pos)
  }

  /** The node find reaches covers the position, and its entry for t is one
      of the subtree's entries. */
  lemma {:induction false} FoundIsStored<T>(n: Node<T, Vec2>, t: T, pos: Vec2)
    requires NodeFind(n, t, pos).Some?
    ensures var f := NodeFind(n, t, pos).value;
      Contains(f.boundary, pos) && (t, f.items[t]) in Entries(n)
    decreases NodeCount(n), 5
  {
    if t in n.items {
      assert (t, n.items[t]) in n.items.Items;
    } else {
      FoundInKidsIsStored(n, 0, t, pos);
    }
  }

  lemma {:induction false} FoundInKidsIsStored<T>(n: Node<T, Vec2>, i: nat, t: T, pos: Vec2)
    requires n.kids.Kids? && i <= 4 && FindInKids(n, i, t, pos).Some?
    ensures var f := FindInKids(n, i, t, pos).value;
      Contains(f.boundary, pos) && (t, f.items[t]) in Entries(n)
    decreases NodeCount(n), 4 - i
  {
    if NodeFind(Kid(n, i), t, pos).Some? {
      FoundIsStored(Kid(n, i), t, pos);
      var f := NodeFind(Kid(n, i), t, pos).value;
      KidEntryIncluded(n, i, (t, f.items[t]));
    } else {
      FoundInKidsIsStored(n, i + 1, t, pos);
    }
  }

  /** deleteT(t, p): erase t from the node that find(t, p) reaches. It
      succeeds exactly when find does. */
  function NodeDelete<T(==)>(n: Node<T, Vec2>, t: T, p: Vec2): (r: (Node<T, Vec2>, bool))
    ensures r.1 == NodeFind(n, t, p).Some?
    ensures !r.1 ==> r.0 == n
    ensures r.0.boundary == n.boundary
    decreases NodeCount(n), 5
  {
    if !Contains(n.boundary, p) then (n, false)
    else if t in n.items then (n.(items := n.items - {t}), true)
    else if n.kids.NoKids? then (n, false)
    else DeleteFromKids(n, 0, t, p)
  }

  /** Try children i, i + 1, ... in NW, NE, SW, SE order. */
  function DeleteFromKids<T(==)>(n: Node<T, Vec2>, i: nat, t: T, p: Vec2): (r: (Node<T, Vec2>, bool))
    requires n.kids.Kids? && i <= 4
    ensures r.1 == FindInKids(n, i, t, p).Some?
    ensures !r.1 ==> r.0 == n
    ensures r.0.boundary == n.boundary
    decreases NodeCount(n), 4 - i
  {
    if i == 4 then (n, false)
    else
      var (c, ok) := NodeDelete(Kid(n, i), t, p);
      if ok then (WithKid(n, i, c), true) else DeleteFromKids(n, i + 1, t, p)
  }

  /** Where the delete at child i succeeds, the child is put back and find
      stops at that child. */
  lemma DeleteKidAccepts<T>(n: Node<T, Vec2>, i: nat, t: T, p: Vec2)
    requires n.kids.Kids? && i < 4 && NodeDelete(Kid(n, i), t, p).1
    ensures DeleteFromKids(n, i, t, p) == (WithKid(n, i, NodeDelete(Kid(n, i), t, p).0), true)
    ensures FindInKids(n, i, t, p) == NodeFind(Kid(n, i), t, p)
  {
  }

  /** Where it fails, delete and find both go on to child i + 1. */
  lemma DeleteKidPasses<T>(n: Node<T, Vec2>, i: nat, t: T, p: Vec2)
    requires n.kids.Kids? && i < 4 && !NodeDelete(Kid(n, i), t, p).1
    ensures DeleteFromKids(n, i, t, p) == DeleteFromKids(n, i + 1, t, p)
    ensures FindInKids(n, i, t, p) == FindInKids(n, i + 1, t, p)
  {
  }

  /** A successful delete takes away exactly the entry find reaches. */
  lemma {:induction false} DeleteRemoves<T>(n: Node<T, Vec2>, t: T, p: Vec2)
    requires NodeFind(n, t, p).Some?
    ensures Entries(NodeDelete(n, t, p).0) == Entries(n) - multiset{(t, NodeFind(n, t, p).value.items[t])}
    decreases NodeCount(n), 5
  {
    if t in n.items {
      MapErase(n.items, t);
    } else {
      DeleteFromKidsRemoves(n, 0, t, p);
    }
  }

  lemma {:induction false} DeleteFromKidsRemoves<T>(n: Node<T, Vec2>, i: nat, t: T, p: Vec2)
    requires n.kids.Kids? && i <= 4 && FindInKids(n, i, t, p).Some?
    ensures Entries(DeleteFromKids(n, i, t, p).0) == Entries(n) - multiset{(t, FindInKids(n, i, t, p).value.items[t])}
    decreases NodeCount(n), 4 - i, 1
  {
    if NodeDelete(Kid(n, i), t, p).1 {
      RemovedByKid(n, i, t, p);
    } else {
      DeleteKidPasses(n, i, t, p);
      DeleteFromKidsRemoves(n, i + 1, t, p);
    }
  }

  /** A child where the delete succeeds loses the entry its find reaches,
      and so the parent loses exactly that entry once the child is put back. */
  lemma {:induction false} RemovedByKid<T>(n: Node<T, Vec2>, i: nat, t: T, p: Vec2)
    requires n.kids.Kids? && i < 4 && NodeDelete(Kid(n, i), t, p).1
    ensures Entries(DeleteFromKids(n, i, t, p).0) == Entries(n) - multiset{(t, FindInKids(n, i, t, p).value.items[t])}
    decreases NodeCount(n), 4 - i, 0
  {
    var k := Kid(n, i);
    DeleteKidAccepts(n, i, t, p);
    DeleteRemoves(k, t, p);
    FoundIsStored(k, t, p);
    WithKidRemoves(n, i, NodeDelete(k, t, p).0, (t, NodeFind(k, t, p).value.items[t]));
  }

  /** Delete keeps the tree well shaped: it never merges or splits a node. */
  lemma {:induction false} DeleteKeepsShape<T>(n: Node<T, Vec2>, t: T, p: Vec2)
    requires WellShaped(n)
    ensures WellShaped(NodeDelete(n, t, p).0)
    decreases NodeCount(n), 5
  {
    if Contains(n.boundary, p) && t !in n.items && n.kids.Kids? {
      DeleteFromKidsKeepsShape(n, 0, t, p);
    }
  }

  lemma {:induction false} DeleteFromKidsKeepsShape<T>(n: Node<T, Vec2>, i: nat, t: T, p: Vec2)
    requires n.kids.Kids? && i <= 4 && WellShaped(n)
    ensures WellShaped(DeleteFromKids(n, i, t, p).0)
    decreases NodeCount(n), 4 - i
  {
    if i < 4 {
      var r := NodeDelete(Kid(n, i), t, p);
      if r.1 {
        DeleteKidAccepts(n, i, t, p);
        DeleteKeepsShape(Kid(n, i), t, p);
        WithKidShape(n, i, r.0);
      } else {
        DeleteKidPasses(n, i, t, p);
        DeleteFromKidsKeepsShape(n, i + 1, t, p);
      }
    }
  }

  /** Delete keeps every remaining point inside the node holding it. */
  lemma {:induction false} DeleteKeepsInside<T>(n: Node<T, Vec2>, t: T, p: Vec2)
    requires PointsInside(n)
    ensures PointsInside(NodeDelete(n, t, p).0)
    decreases NodeCount(n), 5
  {
    if Contains(n.boundary, p) && t !in n.items && n.kids.Kids? {
      DeleteFromKidsKeepsInside(n, 0, t, p);
    }
  }

  lemma {:induction false} DeleteFromKidsKeepsInside<T>(n: Node<T, Vec2>, i: nat, t: T, p: Vec2)
    requires n.kids.Kids? && i <= 4 && PointsInside(n)
    ensures PointsInside(DeleteFromKids(n, i, t, p).0)
    decreases NodeCount(n), 4 - i
  {
    if i < 4 {
      var r := NodeDelete(Kid(n, i), t, p);
      assert PointsInside(Kid(n, i));
      if r.1 {
        DeleteKidAccepts(n, i, t, p);
        DeleteKeepsInside(Kid(n, i), t, p);
        KidsInside(n, i, r.0);
      } else {
        DeleteKidPasses(n, i, t, p);
        DeleteFromKidsKeepsInside(n, i + 1, t, p);
      }
    }
  }

  /** updateClean(t, oldpos, newpos): delete at the old point, then insert at
      the new one. A failed delete changes nothing; a failed insert after a
      successful delete leaves the entry deleted. */
  function NodeUpdateClean<T(==)>(n: Node<T, Vec2>, t: T, oldpos: Vec2, newpos: Vec2): (r: (Node<T, Vec2>, bool))
    requires WellShaped(n)
    ensures r.1 <==> NodeFind(n, t, oldpos).Some? && Contains(n.boundary, newpos)
    ensures NodeFind(n, t, oldpos).None? ==> r.0 == n
    ensures NodeFind(n, t, oldpos).Some? && !Contains(n.boundary, newpos) ==> r.0 == NodeDelete(n, t, oldpos).0
    ensures WellShaped(r.0)
  {
    DeleteKeepsShape(n, t, oldpos);
    var (d, ok) := NodeDelete(n, t, oldpos);
    if !ok then (n, false)
    else
      NodeInsert(d, t, newpos)
  }

  /** The keys of a node's own map whose point lies in the area. */
  function LocalHits<T(==)>(m: map<T, Vec2>, area: AABB): (r: multiset<T>)
    ensures forall k | k in r :: k in m && r[k] == 1
    ensures forall k | k in m :: k in r <==> Contains(area, m[k])
  {
    multiset(set k | k in m && Contains(area, m[k]))
  }

  /** The keys of every stored entry whose point lies in the area, found
      without pruning: the reference that query is measured against. */
  ghost function Hits<T>(n: Node<T, Vec2>, area: AABB): multiset<T>
    decreases n
  {
    LocalHits(n.items, area) +
    match n.kids
    case NoKids => multiset{}
    case Kids(nw, ne, sw, se) => Hits(nw, area) + Hits(ne, area) + Hits(sw, area) + Hits(se, area)
  }

  /** query(area): skip any node whose boundary misses the area, report the
      local keys whose point lies in it, then the children's results. */
  function NodeQuery<T(==)>(n: Node<T, Vec2>, area: AABB): (r: multiset<T>)
    ensures r <= Hits(n, area)
    decreases n
  {
    if !Intersects(n.boundary, area) then multiset{}
    else
      LocalHits(n.items, area) +
      match n.kids
      case NoKids => multiset{}
      case Kids(nw, ne, sw, se) =>
        NodeQuery(nw, area) + NodeQuery(ne, area) + NodeQuery(sw, area) + NodeQuery(se, area)
  }

  /** Every stored point lies inside the root boundary, not only inside the
      boundary of the node holding it. */
  lemma {:induction false} StoredInside<T>(n: Node<T, Vec2>, t: T, g: Vec2)
    requires WellFormed(n) && (t, g) in Entries(n)
    ensures Contains(n.boundary, g)
    decreases n
  {
    if (t, g) in multiset(n.items.Items) {
      assert t in n.items && n.items[t] == g;
    } else {
      match n.kids
      case Kids(nw, ne, sw, se) =>
        QuadrantsInside(n.boundary);
        if (t, g) in Entries(nw) {
          StoredInside(nw, t, g);
          ContainsBoxTransfers(n.boundary, nw.boundary, g);
        } else if (t, g) in Entries(ne) {
          StoredInside(ne, t, g);
          ContainsBoxTransfers(n.boundary, ne.boundary, g);
        } else if (t, g) in Entries(sw) {
          StoredInside(sw, t, g);
          ContainsBoxTransfers(n.boundary, sw.boundary, g);
        } else {
          StoredInside(se, t, g);
          ContainsBoxTransfers(n.boundary, se.boundary, g);
        }
    }
  }

  /** find(t, p) reaches a node holding t whenever (t, p) is stored. */
  lemma {:induction false} FindStored<T>(n: Node<T, Vec2>, t: T, p: Vec2)
    requires WellFormed(n) && (t, p) in Entries(n)
    ensures NodeFind(n, t, p).Some?
    decreases NodeCount(n), 5
  {
    StoredInside(n, t, p);
    if t !in n.items {
      assert (t, p) !in multiset(n.items.Items);
      var j := EntryInSomeKid(n, (t, p));
      FindStoredInKids(n, 0, j, t, p);
    }
  }

  lemma {:induction false} FindStoredInKids<T>(n: Node<T, Vec2>, i: nat, j: nat, t: T, p: Vec2)
    requires n.kids.Kids? && i <= j < 4 && WellFormed(n) && (t, p) in Entries(Kid(n, j))
    ensures FindInKids(n, i, t, p).Some?
    decreases NodeCount(n), 4 - i
  {
    if i == j {
      KidWellFormed(n, i);
      FindStored(Kid(n, i), t, p);
    } else if NodeFind(Kid(n, i), t, p).None? {
      FindStoredInKids(n, i + 1, j, t, p);
    }
  }

  /** A stored entry can be deleted at its point, and the size then drops by
      one. */
  lemma DeleteStored<T>(n: Node<T, Vec2>, t: T, p: Vec2)
    requires WellFormed(n) && (t, p) in Entries(n)
    ensures NodeDelete(n, t, p).1
    ensures Size(NodeDelete(n, t, p).0) == Size(n) - 1
  {
    FindStored(n, t, p);
    DeleteRemoves(n, t, p);
    FoundIsStored(n, t, p);
  }

  /** When n holds the entries of m plus (t, p) and m has no key t, the only
      entry of n under t is (t, p). */
  lemma OnlyEntry<T>(n: Node<T, Vec2>, m: Node<T, Vec2>, t: T, p: Vec2, g: Vec2)
    requires t !in Keys(m) && Entries(n) == Entries(m) + multiset{(t, p)}
    requires (t, g) in Entries(n)
    ensures g == p
  {
    if g != p {
      assert (t, g) in Entries(m);
      KeysOfEntries(m, t, g);
    }
  }

  /** Inserting a fresh key inside the boundary and then deleting it at the
      same point gives back the original entries. */
  lemma DeleteAfterInsert<T>(n: Node<T, Vec2>, t: T, p: Vec2)
    requires WellFormed(n) && t !in Keys(n) && Contains(n.boundary, p)
    ensures NodeInsert(n, t, p).1
    ensures NodeDelete(NodeInsert(n, t, p).0, t, p).1
    ensures Entries(NodeDelete(NodeInsert(n, t, p).0, t, p).0) == Entries(n)
  {
    var m := NodeInsert(n, t, p).0;
    InsertFresh(n, t, p);
    InsertKeepsInside(n, t, p);
    FindStored(m, t, p);
    FoundIsStored(m, t, p);
    var g := NodeFind(m, t, p).value.items[t];
    OnlyEntry(m, n, t, p, g);
    DeleteRemoves(m, t, p);
  }

  /** Moving an entry that was inserted under a fresh key: the update
      succeeds and the entry now sits at the new point. */
  lemma UpdateAfterInsert<T>(n: Node<T, Vec2>, t: T, p: Vec2, q: Vec2)
    requires WellFormed(n) && t !in Keys(n) && Contains(n.boundary, p) && Contains(n.boundary, q)
    ensures NodeUpdateClean(NodeInsert(n, t, p).0, t, p, q).1
    ensures Entries(NodeUpdateClean(NodeInsert(n, t, p).0, t, p, q).0) == Entries(n) + multiset{(t, q)}
  {
    var m := NodeInsert(n, t, p).0;
    DeleteAfterInsert(n, t, p);
    DeleteKeepsShape(m, t, p);
    var d := NodeDelete(m, t, p).0;
    if t in Keys(d) {
      var g := EntryOfKey(d, t);
      KeysOfEntries(n, t, g);
    }
    InsertFresh(d, t, q);
    assert NodeUpdateClean(m, t, p, q) == NodeInsert(d, t, q);
  }

  /** Inserting the given keys at the given points one after another. */
  ghost function InsertAll<T>(n: Node<T, Vec2>, ks: seq<T>, ps: seq<Vec2>): (r: (Node<T, Vec2>, bool))
    requires WellShaped(n) && |ks| == |ps|
    ensures WellShaped(r.0) && r.0.boundary == n.boundary
    decreases |ks|
  {
    if ks == [] then (n, true)
    else
      var m := NodeInsert(n, ks[0], ps[0]);
      var r := InsertAll(m.0, ks[1..], ps[1..]);
      (r.0, m.1 && r.1)
  }

  /** Inserting distinct fresh keys at points inside the boundary succeeds
      every time and raises the size by the number of keys. */
  lemma {:induction false} InsertDistinct<T>(n: Node<T, Vec2>, ks: seq<T>, ps: seq<Vec2>)
    requires WellShaped(n) && |ks| == |ps|
    requires forall i, j :: 0 <= i < j < |ks| ==> ks[i] != ks[j]
    requires forall i :: 0 <= i < |ks| ==> ks[i] !in Keys(n) && Contains(n.boundary, ps[i])
    ensures InsertAll(n, ks, ps).1
    ensures Size(InsertAll(n, ks, ps).0) == Size(n) + |ks|
    decreases |ks|
  {
    if ks != [] {
      var t, p, ks', ps' := ks[0], ps[0], ks[1..], ps[1..];
      var m := NodeInsert(n, t, p).0;
      assert Contains(n.boundary, p);
      InsertAddsKey(n, t, p);
      InsertFresh(n, t, p);
      forall i | 0 <= i < |ks'| ensures ks'[i] !in Keys(m) && Contains(m.boundary, ps'[i]) {
        assert ks'[i] == ks[i + 1] != ks[0];
        assert ps'[i] == ps[i + 1];
      }
      forall i, j | 0 <= i < j < |ks'| ensures ks'[i] != ks'[j] {
        assert ks'[i] == ks[i + 1] && ks'[j] == ks[j + 1];
      }
      InsertDistinct(m, ks', ps');
      assert InsertAll(n, ks, ps) == (InsertAll(m, ks', ps').0, InsertAll(m, ks', ps').1);
    }
  }

  /** Nothing stored in a node that misses the area lies in the area. */
  lemma {:induction false} NoHitsOutside<T>(n: Node<T, Vec2>, area: AABB)
    requires WellFormed(n) && !Intersects(n.boundary, area)
    ensures Hits(n, area) == multiset{}
    decreases n
  {
    forall k | k in n.items ensures !Contains(area, n.items[k]) {
      DisjointExcludes(n.boundary, area, n.items[k]);
    }
    match n.kids
    case NoKids =>
    case Kids(nw, ne, sw, se) =>
      QuadrantsInside(n.boundary);
      KidMissesArea(n.boundary, nw.boundary, area);
      KidMissesArea(n.boundary, ne.boundary, area);
      KidMissesArea(n.boundary, sw.boundary, area);
      KidMissesArea(n.boundary, se.boundary, area);
      NoHitsOutside(nw, area);
      NoHitsOutside(ne, area);
      NoHitsOutside(sw, area);
      NoHitsOutside(se, area);
  }

  /** Pruning by intersects never drops a key: query returns exactly the
      unpruned hits. */
  lemma {:induction false} QueryComplete<T>(n: Node<T, Vec2>, area: AABB)
    requires WellFormed(n)
    ensures NodeQuery(n, area) == Hits(n, area)
    decreases n
  {
    if !Intersects(n.boundary, area) {
      NoHitsOutside(n, area);
    } else {
      match n.kids
      case NoKids =>
      case Kids(nw, ne, sw, se) =>
        QueryComplete(nw, area);
        QueryComplete(ne, area);
        QueryComplete(sw, area);
        QueryComplete(se, area);
    }
  }

  /** A key is among the hits exactly when some stored entry carries it at a
      point inside the area. */
  lemma {:induction false} HitsAreStoredInArea<T>(n: Node<T, Vec2>, area: AABB, t: T)
    ensures t in Hits(n, area) <==> exists g :: (t, g) in Entries(n) && Contains(area, g)
    decreases n
  {
    LocalHitsStored(n.items, area, t);
    match n.kids
    case NoKids =>
    case Kids(nw, ne, sw, se) =>
      HitsAreStoredInArea(nw, area, t);
      HitsAreStoredInArea(ne, area, t);
      HitsAreStoredInArea(sw, area, t);
      HitsAreStoredInArea(se, area, t);
      if t in Hits(n, area) {
        var g :| ((t, g) in multiset(n.items.Items) || (t, g) in Entries(nw) || (t, g) in Entries(ne) ||
                 (t, g) in Entries(sw) || (t, g) in Entries(se)) && Contains(area, g);
        assert (t, g) in Entries(n);
      }
  }

  lemma LocalHitsStored<T>(m: map<T, Vec2>, area: AABB, t: T)
    ensures t in LocalHits(m, area) <==> exists g :: (t, g) in multiset(m.Items) && Contains(area, g)
  {
    if t in LocalHits(m, area) {
      assert (t, m[t]) in m.Items;
    }
    if exists g :: (t, g) in multiset(m.Items) && Contains(area, g) {
      var g :| (t, g) in multiset(m.Items) && Contains(area, g);
      assert t in m && m[t] == g;
    }
  }

  /** A cleared tree holds no point, so every point is inside its node. */
  lemma {:induction false} ClearedInside<T>(n: Node<T, Vec2>)
    ensures PointsInside(QuadNodes.Clear(n))
    decreases n
  {
    match n.kids
    case NoKids =>
    case Kids(nw, ne, sw, se) =>
      ClearedInside(nw);
      ClearedInside(ne);
      ClearedInside(sw);
      ClearedInside(se);
  }

  /** The point quadtree object: the root node, replaced as a whole by every
      operation that changes the tree. */
  class QuadTree<T(==)> {
    var root: Node<T, Vec2>

    ghost predicate Valid()
      reads this
    {
      WellFormed(root)
    }

    constructor (boundary: AABB)
      ensures Valid() && root.boundary == boundary && Size(root) == 0
    {
      root := Leaf(boundary);
    }

    /** insert(t, p): fails, changing nothing, exactly when p lies outside
        the root boundary; otherwise (t, p) is stored and only t's entries
        can change. */
    method Insert(t: T, p: Vec2) returns (ok: bool)
      requires Valid()
      modifies this
      ensures Valid() && (root, ok) == NodeInsert(old(root), t, p)
      ensures ok == Contains(root.boundary, p) && root.boundary == old(root.boundary)
      ensures ok ==> (t, p) in Entries(root) && Keys(root) == old(Keys(root)) + {t}
      ensures EntriesOtherThan(root, t) == old(EntriesOtherThan(root, t))
      ensures ok && t !in old(Keys(root)) ==> Entries(root) == old(Entries(root)) + multiset{(t, p)}
    {
      InsertKeepsInside(root, t, p);
      InsertKeepsOthers(root, t, p);
      if Contains(root.boundary, p) {
        InsertStores(root, t, p);
        InsertAddsKey(root, t, p);
        if t !in Keys(root) {
          InsertFresh(root, t, p);
        }
      }
      var r := NodeInsert(root, t, p);
      root, ok := r.0, r.1;
    }

    /** deleteT(t, p): succeeds exactly when find(t, p) reaches a node, and
        then removes that node's entry for t and nothing else. */
    method DeleteT(t: T, p: Vec2) returns (ok: bool)
      requires Valid()
      modifies this
      ensures Valid() && (root, ok) == NodeDelete(old(root), t, p)
      ensures ok == NodeFind(old(root), t, p).Some?
      ensures ok ==> Entries(root) == old(Entries(root)) - multiset{(t, NodeFind(old(root), t, p).value.items[t])}
      ensures !ok ==> root == old(root)
    {
      DeleteKeepsShape(root, t, p);
      DeleteKeepsInside(root, t, p);
      if NodeFind(root, t, p).Some? {
        DeleteRemoves(root, t, p);
      }
      var r := NodeDelete(root, t, p);
      root, ok := r.0, r.1;
    }

    /** update(): updateClean; the source asserts that it succeeded. */
    method Update(t: T, oldpos: Vec2, newpos: Vec2) returns (ok: bool)
      requires Valid()
      modifies this
      ensures Valid() && (root, ok) == NodeUpdateClean(old(root), t, oldpos, newpos)
      ensures ok <==> NodeFind(old(root), t, oldpos).Some? && Contains(root.boundary, newpos)
    {
      DeleteKeepsShape(root, t, oldpos);
      DeleteKeepsInside(root, t, oldpos);
      var d := NodeDelete(root, t, oldpos);
      InsertKeepsInside(d.0, t, newpos);
      var r := NodeUpdateClean(root, t, oldpos, newpos);
      root, ok := r.0, r.1;
    }

    /** clear(): every entry goes, every node stays. */
    method Clear()
      requires Valid()
      modifies this
      ensures Valid() && root == QuadNodes.Clear(old(root))
      ensures Entries(root) == multiset{} && SameShape(root, old(root))
    {
      ClearedInside(root);
      root := QuadNodes.Clear(root);
    }

    function Query(area: AABB): (r: multiset<T>)
      reads this
      requires Valid()
      ensures r == Hits(root, area)
    {
      QueryComplete(root, area);
      NodeQuery(root, area)
    }

    function Count(): (r: nat)
      reads this
      ensures r == |Entries(root)|
    {
      Size(root)
    }

    method Begin() returns (it: NodeIterator<T, Vec2>)
      ensures fresh(it) && it.Valid()
      ensures it.atEnd <==> KeyBag(root) == multiset{}
      ensures it.Remaining() == KeyBag(root)
    {
      it := new NodeIterator(root, false);
    }

    method End() returns (it: NodeIterator<T, Vec2>)
      ensures fresh(it) && it.atEnd && it.Remaining() == multiset{}
    {
      it := new NodeIterator(root, true);
    }
  }
}
