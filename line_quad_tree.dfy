/** LineQuadTree<T>: the quadtree shape keyed by boxes. There is no capacity
    rule: a node above the minimum dimension always splits (once) and hands
    a box to the first quadrant that contains it whole; a box that fits no
    quadrant, or arrives at a node too small to split, stays in that node's
    own map. The map insert never overwrites an existing key. */
module LineQuadTrees {
  import opened Seqs
  import opened Partition
  import opened QuadNodes

  /** Every stored box lies inside the boundary of the node holding it. */
  ghost predicate BoxesInside<T>(n: Node<T, AABB>)
    decreases n
  {
    (forall k :: k in n.items ==> ContainsBox(n.boundary, n.items[k])) &&
    match n.kids
    case NoKids => true
    case Kids(nw, ne, sw, se) => BoxesInside(nw) && BoxesInside(ne) && BoxesInside(sw) && BoxesInside(se)
  }

  /** The invariant every line quadtree keeps. */
  ghost predicate WellFormed<T>(n: Node<T, AABB>)
  {
    WellShaped(n) && BoxesInside(n)
  }

  /** std::map::insert: a key already present keeps its value. */
  function Put<T(==)>(m: map<T, AABB>, t: T, b: AABB): (r: map<T, AABB>)
    ensures r.Keys == m.Keys + {t}
    ensures forall k :: k in m ==> r[k] == m[k]
    ensures t !in m ==> r[t] == b
  {
    if t in m then m else m[t := b]
  }

  /** Some quadrant of the boundary holds the box whole. */
  predicate FitsQuadrant(bd: AABB, b: AABB)
  {
    ContainsBox(NW(bd), b) || ContainsBox(NE(bd), b) || ContainsBox(SW(bd), b) || ContainsBox(SE(bd), b)
  }

  /** insert(t, b): refuse a box the node does not contain; keep it locally
      when the node is too small to split; otherwise split (once) and offer
      it to the quadrants, keeping it locally when none takes it. */
  function NodeInsert<T(==)>(n: Node<T, AABB>, t: T, b: AABB): (r: (Node<T, AABB>, bool))
    requires WellShaped(n)
    ensures r.1 == ContainsBox(n.boundary, b)
    ensures !r.1 ==> r.0 == n
    ensures r.0.boundary == n.boundary && WellShaped(r.0)
    decreases n.boundary.half.x.Floor, 5
  {
    if !ContainsBox(n.boundary, b) then (n, false)
    else if !Splittable(n.boundary) then (n.(items := Put(n.items, t, b)), true)
    else
      DividedShape(n);
      InsertIntoKids(Divided(n), 0, t, b)
  }

  /** Offer the box to children i, i + 1, ... in NW, NE, SW, SE order; the
      first that contains it takes it, and when none does the node keeps it. */
  function InsertIntoKids<T(==)>(s: Node<T, AABB>, i: nat, t: T, b: AABB): (r: (Node<T, AABB>, bool))
    requires s.kids.Kids? && WellShaped(s) && i <= 4
    ensures r.1 && r.0.boundary == s.boundary && WellShaped(r.0)
    decreases s.boundary.half.x.Floor, 4 - i
  {
    if i == 4 then (s.(items := Put(s.items, t, b)), true)
    else
      KidShrinks(s, i);
      var c := NodeInsert(Kid(s, i), t, b);
      if c.1 then
        WithKidShape(s, i, c.0);
        (WithKid(s, i, c.0), true)
      else
        InsertIntoKids(s, i + 1, t, b)
  }

  /** Some child from i on, in NW, NE, SW, SE order, holds the box whole. */
  predicate FitsSomeKid<T(==)>(s: Node<T, AABB>, i: nat, b: AABB)
    requires s.kids.Kids?
    decreases 4 - i
  {
    i < 4 && (ContainsBox(Kid(s, i).boundary, b) || FitsSomeKid(s, i + 1, b))
  }

  /** The step insert takes at child i: the box goes into the child exactly
      when the child accepts it, which by NodeInsert's contract is exactly
      when the child contains it, and otherwise on to child i + 1. */
  lemma InsertKidsStep<T>(s: Node<T, AABB>, i: nat, t: T, b: AABB)
    requires s.kids.Kids? && WellShaped(s) && i < 4
    ensures NodeInsert(Kid(s, i), t, b).1 ==>
      InsertIntoKids(s, i, t, b) == (WithKid(s, i, NodeInsert(Kid(s, i), t, b).0), true)
    ensures !NodeInsert(Kid(s, i), t, b).1 ==>
      InsertIntoKids(s, i, t, b) == InsertIntoKids(s, i + 1, t, b)
  {
  }

  /** The step insert takes at a splittable node containing the box. */
  lemma InsertSplits<T>(n: Node<T, AABB>, t: T, b: AABB)
    requires WellShaped(n) && ContainsBox(n.boundary, b) && Splittable(n.boundary)
    ensures Divided(n).kids.Kids? && WellShaped(Divided(n))
    ensures NodeInsert(n, t, b) == InsertIntoKids(Divided(n), 0, t, b)
  {
    DividedShape(n);
  }

  /** The children of a divided well-shaped node fit the box exactly when
      some quadrant of the node does. */
  lemma KidsFitQuadrant<T>(n: Node<T, AABB>, b: AABB)
    requires WellShaped(n) && Splittable(n.boundary)
    ensures Divided(n).kids.Kids? && (FitsSomeKid(Divided(n), 0, b) <==> FitsQuadrant(n.boundary, b))
  {
    var s := Divided(n);
    DividedShape(n);
    KidQuadrants(s);
    assert !FitsSomeKid(s, 4, b);
    assert FitsSomeKid(s, 3, b) == ContainsBox(Kid(s, 3).boundary, b);
    assert FitsSomeKid(s, 2, b) == (ContainsBox(Kid(s, 2).boundary, b) || FitsSomeKid(s, 3, b));
    assert FitsSomeKid(s, 1, b) == (ContainsBox(Kid(s, 1).boundary, b) || FitsSomeKid(s, 2, b));
  }

  /** When no child from i on contains the box, the node keeps it itself. */
  lemma {:induction false} InsertIntoKidsMisses<T>(s: Node<T, AABB>, i: nat, t: T, b: AABB)
    requires s.kids.Kids? && WellShaped(s) && i <= 4 && !FitsSomeKid(s, i, b)
    ensures InsertIntoKids(s, i, t, b) == (s.(items := Put(s.items, t, b)), true)
    decreases 4 - i
  {
    if i < 4 {
      InsertKidsStep(s, i, t, b);
      InsertIntoKidsMisses(s, i + 1, t, b);
    }
  }

  /** When some child from i on contains the box, the node's own map is left
      alone. */
  lemma {:induction false} InsertIntoKidsDescends<T>(s: Node<T, AABB>, i: nat, t: T, b: AABB)
    requires s.kids.Kids? && WellShaped(s) && i <= 4 && FitsSomeKid(s, i, b)
    ensures InsertIntoKids(s, i, t, b).0.items == s.items
    decreases 4 - i
  {
    InsertKidsStep(s, i, t, b);
    if !ContainsBox(Kid(s, i).boundary, b) {
      InsertIntoKidsDescends(s, i + 1, t, b);
    }
  }

  /** A box straddling the split stays at the node: the node is divided and
      keeps the box in its own map, and no child changes. */
  lemma StraddleStaysLocal<T>(n: Node<T, AABB>, t: T, b: AABB)
    requires WellShaped(n) && ContainsBox(n.boundary, b) && Splittable(n.boundary)
    requires !FitsQuadrant(n.boundary, b)
    ensures NodeInsert(n, t, b) == (Divided(n).(items := Put(n.items, t, b)), true)
  {
    InsertSplits(n, t, b);
    KidsFitQuadrant(n, b);
    InsertIntoKidsMisses(Divided(n), 0, t, b);
  }

  /** The node's own map takes the box exactly when the node cannot split or
      no quadrant holds the box whole. */
  lemma InsertKeepsLocally<T>(n: Node<T, AABB>, t: T, b: AABB)
    requires WellShaped(n) && ContainsBox(n.boundary, b)
    ensures !Splittable(n.boundary) || !FitsQuadrant(n.boundary, b) ==>
      NodeInsert(n, t, b).0.items == Put(n.items, t, b)
    ensures Splittable(n.boundary) && FitsQuadrant(n.boundary, b) ==>
      NodeInsert(n, t, b).0.items == n.items
  {
    if Splittable(n.boundary) {
      InsertSplits(n, t, b);
      KidsFitQuadrant(n, b);
      if FitsQuadrant(n.boundary, b) {
        InsertIntoKidsDescends(Divided(n), 0, t, b);
      } else {
        StraddleStaysLocal(n, t, b);
      }
    }
  }

  /** Re-inserting a key that the landing node already holds succeeds and
      changes no entry: the old box is kept. */
  lemma ReinsertKeepsBox<T>(n: Node<T, AABB>, t: T, b: AABB)
    requires WellShaped(n) && ContainsBox(n.boundary, b) && t in n.items
    requires !Splittable(n.boundary) || !FitsQuadrant(n.boundary, b)
    ensures NodeInsert(n, t, b).1 && NodeInsert(n, t, b).0.items == n.items
    ensures Entries(NodeInsert(n, t, b).0) == Entries(n)
  {
    if Splittable(n.boundary) {
      StraddleStaysLocal(n, t, b);
      assert Divided(n).(items := Put(n.items, t, b)) == Divided(n);
      DividedKeeps(n, t);
    } else {
      assert n.(items := Put(n.items, t, b)) == n;
    }
  }

  /** Insert stores every box inside the boundary of the node that keeps it. */
  lemma {:induction false} InsertKeepsInside<T>(n: Node<T, AABB>, t: T, b: AABB)
    requires WellShaped(n) && BoxesInside(n)
    ensures BoxesInside(NodeInsert(n, t, b).0)
    decreases n.boundary.half.x.Floor, 5
  {
    if ContainsBox(n.boundary, b) {
      if !Splittable(n.boundary) {
        PutInside(n, t, b);
      } else {
        InsertSplits(n, t, b);
        DividedInside(n);
        InsertIntoKidsKeepsInside(Divided(n), 0, t, b);
      }
    }
  }

  lemma {:induction false} InsertIntoKidsKeepsInside<T>(s: Node<T, AABB>, i: nat, t: T, b: AABB)
    requires s.kids.Kids? && WellShaped(s) && i <= 4 && BoxesInside(s) && ContainsBox(s.boundary, b)
    ensures BoxesInside(InsertIntoKids(s, i, t, b).0)
    decreases s.boundary.half.x.Floor, 4 - i
  {
    if i == 4 {
      PutInside(s, t, b);
    } else {
      InsertKidsStep(s, i, t, b);
      KidShrinks(s, i);
      KidShape(s, i);
      var r := NodeInsert(Kid(s, i), t, b);
      if r.1 {
        KidWellFormed(s, i);
        InsertKeepsInside(Kid(s, i), t, b);
        KidsInside(s, i, r.0);
      } else {
        InsertIntoKidsKeepsInside(s, i + 1, t, b);
      }
    }
  }

  /** A successful insert adds t to the keys and no other key. */
  lemma {:induction false} InsertAddsKey<T>(n: Node<T, AABB>, t: T, b: AABB)
    requires WellShaped(n) && ContainsBox(n.boundary, b)
    ensures Keys(NodeInsert(n, t, b).0) == Keys(n) + {t}
    decreases n.boundary.half.x.Floor, 5
  {
    if !Splittable(n.boundary) {
      PutAddsKey(n, t, b);
    } else {
      InsertSplits(n, t, b);
      DividedKeeps(n, t);
      InsertIntoKidsAddsKey(Divided(n), 0, t, b);
    }
  }

  lemma {:induction false} InsertIntoKidsAddsKey<T>(s: Node<T, AABB>, i: nat, t: T, b: AABB)
    requires s.kids.Kids? && WellShaped(s) && i <= 4
    ensures Keys(InsertIntoKids(s, i, t, b).0) == Keys(s) + {t}
    decreases s.boundary.half.x.Floor, 4 - i
  {
    if i == 4 {
      PutAddsKey(s, t, b);
    } else {
      InsertKidsStep(s, i, t, b);
      KidShrinks(s, i);
      KidShape(s, i);
      var r := NodeInsert(Kid(s, i), t, b);
      if r.1 {
        InsertAddsKey(Kid(s, i), t, b);
        WithKidKeys(s, i, r.0, t);
      } else {
        InsertIntoKidsAddsKey(s, i + 1, t, b);
      }
    }
  }

  /** Insert leaves the entries under every other key as they were. */
  lemma {:induction false} InsertKeepsOthers<T>(n: Node<T, AABB>, t: T, b: AABB)
    requires WellShaped(n)
    ensures EntriesOtherThan(NodeInsert(n, t, b).0, t) == EntriesOtherThan(n, t)
    decreases n.boundary.half.x.Floor, 5
  {
    if ContainsBox(n.boundary, b) {
      if !Splittable(n.boundary) {
        PutKeepsOthers(n, t, b);
      } else {
        InsertSplits(n, t, b);
        DividedKeeps(n, t);
        InsertIntoKidsKeepsOthers(Divided(n), 0, t, b);
      }
    }
  }

  lemma {:induction false} InsertIntoKidsKeepsOthers<T>(s: Node<T, AABB>, i: nat, t: T, b: AABB)
    requires s.kids.Kids? && WellShaped(s) && i <= 4
    ensures EntriesOtherThan(InsertIntoKids(s, i, t, b).0, t) == EntriesOtherThan(s, t)
    decreases s.boundary.half.x.Floor, 4 - i
  {
    if i == 4 {
      PutKeepsOthers(s, t, b);
    } else {
      InsertKidsStep(s, i, t, b);
      KidShrinks(s, i);
      KidShape(s, i);
      var r := NodeInsert(Kid(s, i), t, b);
      if r.1 {
        InsertKeepsOthers(Kid(s, i), t, b);
        WithKidOthers(s, i, r.0, t);
      } else {
        InsertIntoKidsKeepsOthers(s, i + 1, t, b);
      }
    }
  }

  /** Inserting a key not yet stored adds exactly the one entry (t, b). */
  lemma {:induction false} InsertFresh<T>(n: Node<T, AABB>, t: T, b: AABB)
    requires WellShaped(n) && ContainsBox(n.boundary, b) && t !in Keys(n)
    ensures Entries(NodeInsert(n, t, b).0) == Entries(n) + multiset{(t, b)}
    decreases n.boundary.half.x.Floor, 5
  {
    if !Splittable(n.boundary) {
      PutFresh(n, t, b);
    } else {
      InsertSplits(n, t, b);
      DividedKeeps(n, t);
      InsertIntoKidsFresh(Divided(n), 0, t, b);
    }
  }

  lemma {:induction false} InsertIntoKidsFresh<T>(s: Node<T, AABB>, i: nat, t: T, b: AABB)
    requires s.kids.Kids? && WellShaped(s) && i <= 4 && t !in Keys(s)
    ensures Entries(InsertIntoKids(s, i, t, b).0) == Entries(s) + multiset{(t, b)}
    decreases s.boundary.half.x.Floor, 4 - i
  {
    if i == 4 {
      PutFresh(s, t, b);
    } else {
      InsertKidsStep(s, i, t, b);
      KidShrinks(s, i);
      KidShape(s, i);
      var k := Kid(s, i);
      var r := NodeInsert(k, t, b);
      if r.1 {
        KeyOfKid(s, i, t);
        InsertFresh(k, t, b);
        WithKidAdds(s, i, r.0, multiset{(t, b)});
      } else {
        InsertIntoKidsFresh(s, i + 1, t, b);
      }
    }
  }

  /** Storing a box the node contains keeps every box inside its node. */
  lemma PutInside<T>(n: Node<T, AABB>, t: T, b: AABB)
    requires BoxesInside(n) && ContainsBox(n.boundary, b)
    ensures BoxesInside(n.(items := Put(n.items, t, b)))
  {
  }

  /** Storing under t in a node's own map adds t to the keys. */
  lemma PutAddsKey<T>(n: Node<T, AABB>, t: T, b: AABB)
    ensures Keys(n.(items := Put(n.items, t, b))) == Keys(n) + {t}
  {
  }

  /** Storing (t, b) under a key the subtree lacks adds exactly that entry. */
  lemma PutFresh<T>(n: Node<T, AABB>, t: T, b: AABB)
    requires t !in Keys(n)
    ensures Entries(n.(items := Put(n.items, t, b))) == Entries(n) + multiset{(t, b)}
  {
    assert t !in n.items;
    MapPutFresh(n.items, t, b);
  }

  /** Storing under t in a node's own map leaves the other keys' entries. */
  lemma PutKeepsOthers<T>(n: Node<T, AABB>, t: T, b: AABB)
    ensures EntriesOtherThan(n.(items := Put(n.items, t, b)), t) == EntriesOtherThan(n, t)
  {
    assert Put(n.items, t, b) - {t} == n.items - {t};
  }

  /** Dividing keeps every box inside its node: the new children are empty. */
  lemma DividedInside<T>(n: Node<T, AABB>)
    requires BoxesInside(n)
    ensures BoxesInside(Divided(n))
  {
    if n.kids.NoKids? {
      var k := Divided(n).kids;
      assert BoxesInside(k.nw) && BoxesInside(k.ne) && BoxesInside(k.sw) && BoxesInside(k.se);
    }
  }

  /** Replacing a child by one whose boxes lie inside it keeps every box
      inside its node. */
  lemma KidsInside<T>(s: Node<T, AABB>, i: nat, c: Node<T, AABB>)
    requires s.kids.Kids? && i < 4 && BoxesInside(s) && BoxesInside(c)
    ensures BoxesInside(WithKid(s, i, c))
  {
    var r := WithKid(s, i, c);
    assert BoxesInside(Kid(s, 0)) && BoxesInside(Kid(s, 1)) && BoxesInside(Kid(s, 2)) && BoxesInside(Kid(s, 3));
    assert BoxesInside(Kid(r, 0)) && BoxesInside(Kid(r, 1)) && BoxesInside(Kid(r, 2)) && BoxesInside(Kid(r, 3));
  }

  lemma KidWellFormed<T>(n: Node<T, AABB>, i: nat)
    requires n.kids.Kids? && i < 4 && WellShaped(n) && BoxesInside(n)
    ensures WellShaped(Kid(n, i)) && BoxesInside(Kid(n, i))
  {
  }

  /** find(t, pos): the first node, searching the path of nodes whose
      boundary contains the box pos, whose own map holds t. */
  function NodeFind<T(==)>(n: Node<T, AABB>, t: T, pos: AABB): (r: Option<Node<T, AABB>>)
    ensures r.Some? ==> ContainsBox(n.boundary, pos) && t in r.value.items
    decreases NodeCount(n), 5
  {
    if !ContainsBox(n.boundary, pos) then None
    else if t in n.items then Some(n)
    else if n.kids.NoKids? then None
    else FindInKids(n, 0, t, pos)
  }

  /** Search children i, i + 1, ... in NW, NE, SW, SE order. */
  function FindInKids<T(==)>(n: Node<T, AABB>, i: nat, t: T, pos: AABB): (r: Option<Node<T, AABB>>)
    requires n.kids.Kids? && i <= 4
    ensures r.Some? ==> t in r.value.items
    decreases NodeCount(n), 4 - i
  {
    if i == 4 then None
    else
      var a := NodeFind(Kid(n, i), t, pos);
      if a.Some? then a else FindInKids(n, i + 1, t, pos)
  }

  /** The node find reaches contains the box, and its entry for t is one of
      the subtree's entries. */
  lemma {:induction false} FoundIsStored<T>(n: Node<T, AABB>, t: T, pos: AABB)
    requires NodeFind(n, t, pos).Some?
    ensures var f := NodeFind(n, t, pos).value;
      ContainsBox(f.boundary, pos) && (t, f.items[t]) in Entries(n)
    decreases NodeCount(n), 5
  {
    if t in n.items {
      assert (t, n.items[t]) in n.items.Items;
    } else {
      FoundInKidsIsStored(n, 0, t, pos);
    }
  }

  lemma {:induction false} FoundInKidsIsStored<T>(n: Node<T, AABB>, i: nat, t: T, pos: AABB)
    requires n.kids.Kids? && i <= 4 && FindInKids(n, i, t, pos).Some?
    ensures var f := FindInKids(n, i, t, pos).value;
      ContainsBox(f.boundary, pos) && (t, f.items[t]) in Entries(n)
    decreases NodeCount(n), 4 - i
  {
    if NodeFind(Kid(n, i), t, pos).Some? {
      FoundIsStored(Kid(n, i), t, pos);
      var f := NodeFind(Kid(n, i), t, pos).value;
      KidEntryIncluded(n, i, (t, f.items[t]));
    } else {
      FoundInKidsIsStored(n, i + 1, t, pos);
    }
  }

  /** deleteT(t, b): erase t from the node that find(t, b) reaches, whatever
      box it is stored with there. It succeeds exactly when find does. */
  function NodeDelete<T(==)>(n: Node<T, AABB>, t: T, b: AABB): (r: (Node<T, AABB>, bool))
    ensures r.1 == NodeFind(n, t, b).Some?
    ensures !r.1 ==> r.0 == n
    ensures r.0.boundary == n.boundary
    decreases NodeCount(n), 5
  {
    if !ContainsBox(n.boundary, b) then (n, false)
    else if t in n.items then (n.(items := n.items - {t}), true)
    else if n.kids.NoKids? then (n, false)
    else DeleteFromKids(n, 0, t, b)
  }

  /** Try children i, i + 1, ... in NW, NE, SW, SE order. */
  function DeleteFromKids<T(==)>(n: Node<T, AABB>, i: nat, t: T, b: AABB): (r: (Node<T, AABB>, bool))
    requires n.kids.Kids? && i <= 4
    ensures r.1 == FindInKids(n, i, t, b).Some?
    ensures !r.1 ==> r.0 == n
    ensures r.0.boundary == n.boundary
    decreases NodeCount(n), 4 - i
  {
    if i == 4 then (n, false)
    else
      var c := NodeDelete(Kid(n, i), t, b);
      if c.1 then (WithKid(n, i, c.0), true) else DeleteFromKids(n, i + 1, t, b)
  }

  /** Where the delete at child i succeeds, the child is put back and find
      stops at that child. */
  lemma DeleteKidAccepts<T>(n: Node<T, AABB>, i: nat, t: T, b: AABB)
    requires n.kids.Kids? && i < 4 && NodeDelete(Kid(n, i), t, b).1
    ensures DeleteFromKids(n, i, t, b) == (WithKid(n, i, NodeDelete(Kid(n, i), t, b).0), true)
    ensures FindInKids(n, i, t, b) == NodeFind(Kid(n, i), t, b)
  {
  }

  /** Where it fails, delete and find both go on to child i + 1. */
  lemma DeleteKidPasses<T>(n: Node<T, AABB>, i: nat, t: T, b: AABB)
    requires n.kids.Kids? && i < 4 && !NodeDelete(Kid(n, i), t, b).1
    ensures DeleteFromKids(n, i, t, b) == DeleteFromKids(n, i + 1, t, b)
    ensures FindInKids(n, i, t, b) == FindInKids(n, i + 1, t, b)
  {
  }

  /** A successful delete takes away exactly the entry find reaches. */
  lemma {:induction false} DeleteRemoves<T>(n: Node<T, AABB>, t: T, b: AABB)
    requires NodeFind(n, t, b).Some?
    ensures Entries(NodeDelete(n, t, b).0) == Entries(n) - multiset{(t, NodeFind(n, t, b).value.items[t])}
    decreases NodeCount(n), 5
  {
    if t in n.items {
      MapErase(n.items, t);
    } else {
      DeleteFromKidsRemoves(n, 0, t, b);
    }
  }

  lemma {:induction false} DeleteFromKidsRemoves<T>(n: Node<T, AABB>, i: nat, t: T, b: AABB)
    requires n.kids.Kids? && i <= 4 && FindInKids(n, i, t, b).Some?
    ensures Entries(DeleteFromKids(n, i, t, b).0) == Entries(n) - multiset{(t, FindInKids(n, i, t, b).value.items[t])}
    decreases NodeCount(n), 4 - i, 1
  {
    if NodeDelete(Kid(n, i), t, b).1 {
      RemovedByKid(n, i, t, b);
    } else {
      DeleteKidPasses(n, i, t, b);
      DeleteFromKidsRemoves(n, i + 1, t, b);
    }
  }

  /** A child where the delete succeeds loses the entry its find reaches,
      and so the parent loses exactly that entry once the child is put back. */
  lemma {:induction false} RemovedByKid<T>(n: Node<T, AABB>, i: nat, t: T, b: AABB)
    requires n.kids.Kids? && i < 4 && NodeDelete(Kid(n, i), t, b).1
    ensures Entries(DeleteFromKids(n, i, t, b).0) == Entries(n) - multiset{(t, FindInKids(n, i, t, b).value.items[t])}
    decreases NodeCount(n), 4 - i, 0
  {
    var k := Kid(n, i);
    DeleteKidAccepts(n, i, t, b);
    DeleteRemoves(k, t, b);
    FoundIsStored(k, t, b);
    WithKidRemoves(n, i, NodeDelete(k, t, b).0, (t, NodeFind(k, t, b).value.items[t]));
  }

  /** Delete keeps the tree well shaped: it never merges or splits a node. */
  lemma {:induction false} DeleteKeepsShape<T>(n: Node<T, AABB>, t: T, b: AABB)
    requires WellShaped(n)
    ensures WellShaped(NodeDelete(n, t, b).0)
    decreases NodeCount(n), 5
  {
    if ContainsBox(n.boundary, b) && t !in n.items && n.kids.Kids? {
      DeleteFromKidsKeepsShape(n, 0, t, b);
    }
  }

  lemma {:induction false} DeleteFromKidsKeepsShape<T>(n: Node<T, AABB>, i: nat, t: T, b: AABB)
    requires n.kids.Kids? && i <= 4 && WellShaped(n)
    ensures WellShaped(DeleteFromKids(n, i, t, b).0)
    decreases NodeCount(n), 4 - i
  {
    if i < 4 {
      var r := NodeDelete(Kid(n, i), t, b);
      if r.1 {
        DeleteKidAccepts(n, i, t, b);
        DeleteKeepsShape(Kid(n, i), t, b);
        WithKidShape(n, i, r.0);
      } else {
        DeleteKidPasses(n, i, t, b);
        DeleteFromKidsKeepsShape(n, i + 1, t, b);
      }
    }
  }

  /** Delete keeps every remaining box inside the node holding it. */
  lemma {:induction false} DeleteKeepsInside<T>(n: Node<T, AABB>, t: T, b: AABB)
    requires BoxesInside(n)
    ensures BoxesInside(NodeDelete(n, t, b).0)
    decreases NodeCount(n), 5
  {
    if ContainsBox(n.boundary, b) && t !in n.items && n.kids.Kids? {
      DeleteFromKidsKeepsInside(n, 0, t, b);
    }
  }

  lemma {:induction false} DeleteFromKidsKeepsInside<T>(n: Node<T, AABB>, i: nat, t: T, b: AABB)
    requires n.kids.Kids? && i <= 4 && BoxesInside(n)
    ensures BoxesInside(DeleteFromKids(n, i, t, b).0)
    decreases NodeCount(n), 4 - i
  {
    if i < 4 {
      var r := NodeDelete(Kid(n, i), t, b);
      assert BoxesInside(Kid(n, i));
      if r.1 {
        DeleteKidAccepts(n, i, t, b);
        DeleteKeepsInside(Kid(n, i), t, b);
        KidsInside(n, i, r.0);
      } else {
        DeleteKidPasses(n, i, t, b);
        DeleteFromKidsKeepsInside(n, i + 1, t, b);
      }
    }
  }

  /** updateClean(t, oldpos, newpos): delete at the old box, then insert at
      the new one. It succeeds only when both steps do; a failed delete
      changes nothing, a failed insert leaves the entry deleted. */
  function NodeUpdateClean<T(==)>(n: Node<T, AABB>, t: T, oldpos: AABB, newpos: AABB): (r: (Node<T, AABB>, bool))
    requires WellShaped(n)
    ensures r.1 <==> NodeFind(n, t, oldpos).Some? && ContainsBox(n.boundary, newpos)
    ensures NodeFind(n, t, oldpos).None? ==> r.0 == n
    ensures NodeFind(n, t, oldpos).Some? && !ContainsBox(n.boundary, newpos) ==> r.0 == NodeDelete(n, t, oldpos).0
    ensures WellShaped(r.0)
  {
    DeleteKeepsShape(n, t, oldpos);
    var d := NodeDelete(n, t, oldpos);
    if !d.1 then (n, false)
    else
      NodeInsert(d.0, t, newpos)
  }

  /** The keys of a node's own map whose box overlaps the area. */
  function LocalHits<T(==)>(m: map<T, AABB>, area: AABB): (r: multiset<T>)
    ensures forall k | k in r :: k in m && r[k] == 1
    ensures forall k | k in m :: k in r <==> Intersects(area, m[k])
  {
    multiset(set k | k in m && Intersects(area, m[k]))
  }

  /** The keys of every stored entry whose box overlaps the area, found
      without pruning: the reference that query is measured against. */
  ghost function Hits<T>(n: Node<T, AABB>, area: AABB): multiset<T>
    decreases n
  {
    LocalHits(n.items, area) +
    match n.kids
    case NoKids => multiset{}
    case Kids(nw, ne, sw, se) => Hits(nw, area) + Hits(ne, area) + Hits(sw, area) + Hits(se, area)
  }

  /** query(area): skip any node whose boundary misses the area, report the
      local keys whose box overlaps it, then the children's results. */
  function NodeQuery<T(==)>(n: Node<T, AABB>, area: AABB): (r: multiset<T>)
    ensures r <= Hits(n, area)
    decreases n
  {
    if !Intersects(n.boundary, area) then multiset{}
    else
      LocalHits(n.items, area) +
      match n.kids
      case NoKids => multiset{}
      case Kids(nw, ne, sw, se) =>
        NodeQuery(nw, area) + NodeQuery(ne, area) + NodeQuery(sw, area) + NodeQuery(se, area)
  }

  /** Nothing stored in a node that misses the area overlaps the area. */
  lemma {:induction false} NoHitsOutside<T>(n: Node<T, AABB>, area: AABB)
    requires WellFormed(n) && !Intersects(n.boundary, area)
    ensures Hits(n, area) == multiset{}
    decreases n
  {
    forall k | k in n.items ensures !Intersects(area, n.items[k]) {
      KidMissesArea(n.boundary, n.items[k], area);
      IntersectsSymmetric(area, n.items[k]);
    }
    match n.kids
    case NoKids =>
    case Kids(nw, ne, sw, se) =>
      QuadrantsInside(n.boundary);
      KidMissesArea(n.boundary, nw.boundary, area);
      KidMissesArea(n.boundary, ne.boundary, area);
      KidMissesArea(n.boundary, sw.boundary, area);
      KidMissesArea(n.boundary, se.boundary, area);
      NoHitsOutside(nw, area);
      NoHitsOutside(ne, area);
      NoHitsOutside(sw, area);
      NoHitsOutside(se, area);
  }

  /** Pruning by intersects never drops a key, including the keys of boxes
      kept at coarse nodes: query returns exactly the unpruned hits. */
  lemma {:induction false} QueryComplete<T>(n: Node<T, AABB>, area: AABB)
    requires WellFormed(n)
    ensures NodeQuery(n, area) == Hits(n, area)
    decreases n
  {
    if !Intersects(n.boundary, area) {
      NoHitsOutside(n, area);
    } else {
      match n.kids
      case NoKids =>
      case Kids(nw, ne, sw, se) =>
        QueryComplete(nw, area);
        QueryComplete(ne, area);
        QueryComplete(sw, area);
        QueryComplete(se, area);
    }
  }

  /** A key is among the hits exactly when some stored entry carries it with
      a box overlapping the area. */
  lemma {:induction false} HitsAreStoredInArea<T>(n: Node<T, AABB>, area: AABB, t: T)
    ensures t in Hits(n, area) <==> exists g :: (t, g) in Entries(n) && Intersects(area, g)
    decreases n
  {
    LocalHitsStored(n.items, area, t);
    match n.kids
    case NoKids =>
    case Kids(nw, ne, sw, se) =>
      HitsAreStoredInArea(nw, area, t);
      HitsAreStoredInArea(ne, area, t);
      HitsAreStoredInArea(sw, area, t);
      HitsAreStoredInArea(se, area, t);
      if t in Hits(n, area) {
        var g :| ((t, g) in multiset(n.items.Items) || (t, g) in Entries(nw) || (t, g) in Entries(ne) ||
                 (t, g) in Entries(sw) || (t, g) in Entries(se)) && Intersects(area, g);
        assert (t, g) in Entries(n);
      }
  }

  lemma LocalHitsStored<T>(m: map<T, AABB>, area: AABB, t: T)
    ensures t in LocalHits(m, area) <==> exists g :: (t, g) in multiset(m.Items) && Intersects(area, g)
  {
    if t in LocalHits(m, area) {
      assert (t, m[t]) in m.Items;
    }
    if exists g :: (t, g) in multiset(m.Items) && Intersects(area, g) {
      var g :| (t, g) in multiset(m.Items) && Intersects(area, g);
      assert t in m && m[t] == g;
    }
  }

  /** Every stored box lies inside the root boundary, not only inside the
      boundary of the node holding it. */
  lemma {:induction false} StoredInside<T>(n: Node<T, AABB>, t: T, g: AABB)
    requires WellFormed(n) && (t, g) in Entries(n)
    ensures ContainsBox(n.boundary, g)
    decreases n
  {
    if (t, g) in multiset(n.items.Items) {
      assert t in n.items && n.items[t] == g;
    } else {
      match n.kids
      case Kids(nw, ne, sw, se) =>
        QuadrantsInside(n.boundary);
        if (t, g) in Entries(nw) {
          StoredInside(nw, t, g);
          ContainsBoxTransitive(n.boundary, nw.boundary, g);
        } else if (t, g) in Entries(ne) {
          StoredInside(ne, t, g);
          ContainsBoxTransitive(n.boundary, ne.boundary, g);
        } else if (t, g) in Entries(sw) {
          StoredInside(sw, t, g);
          ContainsBoxTransitive(n.boundary, sw.boundary, g);
        } else {
          StoredInside(se, t, g);
          ContainsBoxTransitive(n.boundary, se.boundary, g);
        }
    }
  }

  /** find(t, b) reaches a node holding t whenever (t, b) is stored. */
  lemma {:induction false} FindStored<T>(n: Node<T, AABB>, t: T, b: AABB)
    requires WellFormed(n) && (t, b) in Entries(n)
    ensures NodeFind(n, t, b).Some?
    decreases NodeCount(n), 5
  {
    StoredInside(n, t, b);
    if t !in n.items {
      assert (t, b) !in multiset(n.items.Items);
      var j := EntryInSomeKid(n, (t, b));
      FindStoredInKids(n, 0, j, t, b);
    }
  }

  lemma {:induction false} FindStoredInKids<T>(n: Node<T, AABB>, i: nat, j: nat, t: T, b: AABB)
    requires n.kids.Kids? && i <= j < 4 && WellFormed(n) && (t, b) in Entries(Kid(n, j))
    ensures FindInKids(n, i, t, b).Some?
    decreases NodeCount(n), 4 - i
  {
    if i == j {
      KidWellFormed(n, i);
      FindStored(Kid(n, i), t, b);
    } else if NodeFind(Kid(n, i), t, b).None? {
      FindStoredInKids(n, i + 1, j, t, b);
    }
  }

  /** A stored entry can be deleted at its box, and the size then drops by
      one. */
  lemma DeleteStored<T>(n: Node<T, AABB>, t: T, b: AABB)
    requires WellFormed(n) && (t, b) in Entries(n)
    ensures NodeDelete(n, t, b).1
    ensures Size(NodeDelete(n, t, b).0) == Size(n) - 1
  {
    FindStored(n, t, b);
    DeleteRemoves(n, t, b);
    FoundIsStored(n, t, b);
  }

  /** When n holds the entries of m plus (t, b) and m has no key t, the only
      entry of n under t is (t, b). */
  lemma OnlyEntry<T>(n: Node<T, AABB>, m: Node<T, AABB>, t: T, b: AABB, g: AABB)
    requires t !in Keys(m) && Entries(n) == Entries(m) + multiset{(t, b)}
    requires (t, g) in Entries(n)
    ensures g == b
  {
    if g != b {
      assert (t, g) in Entries(m);
      KeysOfEntries(m, t, g);
    }
  }

  /** Inserting a fresh key with a box inside the boundary and then deleting
      it at the same box gives back the original entries. */
  lemma DeleteAfterInsert<T>(n: Node<T, AABB>, t: T, b: AABB)
    requires WellFormed(n) && t !in Keys(n) && ContainsBox(n.boundary, b)
    ensures NodeInsert(n, t, b).1
    ensures NodeDelete(NodeInsert(n, t, b).0, t, b).1
    ensures Entries(NodeDelete(NodeInsert(n, t, b).0, t, b).0) == Entries(n)
  {
    var m := NodeInsert(n, t, b).0;
    InsertFresh(n, t, b);
    InsertKeepsInside(n, t, b);
    FindStored(m, t, b);
    FoundIsStored(m, t, b);
    var g := NodeFind(m, t, b).value.items[t];
    OnlyEntry(m, n, t, b, g);
    DeleteRemoves(m, t, b);
  }

  /** Moving an entry that was inserted under a fresh key: the update
      succeeds and the entry now has the new box. */
  lemma UpdateAfterInsert<T>(n: Node<T, AABB>, t: T, b: AABB, c: AABB)
    requires WellFormed(n) && t !in Keys(n) && ContainsBox(n.boundary, b) && ContainsBox(n.boundary, c)
    ensures NodeUpdateClean(NodeInsert(n, t, b).0, t, b, c).1
    ensures Entries(NodeUpdateClean(NodeInsert(n, t, b).0, t, b, c).0) == Entries(n) + multiset{(t, c)}
  {
    var m := NodeInsert(n, t, b).0;
    DeleteAfterInsert(n, t, b);
    DeleteKeepsShape(m, t, b);
    var d := NodeDelete(m, t, b).0;
    if t in Keys(d) {
      var g := EntryOfKey(d, t);
      KeysOfEntries(n, t, g);
    }
    InsertFresh(d, t, c);
    assert NodeUpdateClean(m, t, b, c) == NodeInsert(d, t, c);
  }

  /** Inserting the given keys with the given boxes one after another. */
  ghost function InsertAll<T>(n: Node<T, AABB>, ks: seq<T>, bs: seq<AABB>): (r: (Node<T, AABB>, bool))
    requires WellShaped(n) && |ks| == |bs|
    ensures WellShaped(r.0) && r.0.boundary == n.boundary
    decreases |ks|
  {
    if ks == [] then (n, true)
    else
      var m := NodeInsert(n, ks[0], bs[0]);
      var r := InsertAll(m.0, ks[1..], bs[1..]);
      (r.0, m.1 && r.1)
  }

  /** Inserting distinct fresh keys with boxes inside the boundary succeeds
      every time and raises the size by the number of keys. */
  lemma {:induction false} InsertDistinct<T>(n: Node<T, AABB>, ks: seq<T>, bs: seq<AABB>)
    requires WellShaped(n) && |ks| == |bs|
    requires forall i, j :: 0 <= i < j < |ks| ==> ks[i] != ks[j]
    requires forall i :: 0 <= i < |ks| ==> ks[i] !in Keys(n) && ContainsBox(n.boundary, bs[i])
    ensures InsertAll(n, ks, bs).1
    ensures Size(InsertAll(n, ks, bs).0) == Size(n) + |ks|
    decreases |ks|
  {
    if ks != [] {
      var t, b, ks', bs' := ks[0], bs[0], ks[1..], bs[1..];
      var m := NodeInsert(n, t, b).0;
      assert ContainsBox(n.boundary, b);
      InsertAddsKey(n, t, b);
      InsertFresh(n, t, b);
      forall i | 0 <= i < |ks'| ensures ks'[i] !in Keys(m) && ContainsBox(m.boundary, bs'[i]) {
        assert ks'[i] == ks[i + 1] != ks[0];
        assert bs'[i] == bs[i + 1];
      }
      forall i, j | 0 <= i < j < |ks'| ensures ks'[i] != ks'[j] {
        assert ks'[i] == ks[i + 1] && ks'[j] == ks[j + 1];
      }
      InsertDistinct(m, ks', bs');
      assert InsertAll(n, ks, bs) == (InsertAll(m, ks', bs').0, InsertAll(m, ks', bs').1);
    }
  }

  /** A cleared tree holds no box, so every box is inside its node. */
  lemma {:induction false} ClearedInside<T>(n: Node<T, AABB>)
    ensures BoxesInside(QuadNodes.Clear(n))
    decreases n
  {
    match n.kids
    case NoKids =>
    case Kids(nw, ne, sw, se) =>
      ClearedInside(nw);
      ClearedInside(ne);
      ClearedInside(sw);
      ClearedInside(se);
  }

  /** The line quadtree object: the root node, replaced as a whole by every
      operation that changes the tree. */
  class LineQuadTree<T(==)> {
    var root: Node<T, AABB>

    ghost predicate Valid()
      reads this
    {
      WellFormed(root)
    }

    constructor (boundary: AABB)
      ensures Valid() && root.boundary == boundary && Size(root) == 0
    {
      root := Leaf(boundary);
    }

    /** insert(t, b): fails, changing nothing, exactly when the root does not
        contain b; otherwise t becomes a key and only t's entries can
        change. */
    method Insert(t: T, b: AABB) returns (ok: bool)
      requires Valid()
      modifies this
      ensures Valid() && (root, ok) == NodeInsert(old(root), t, b)
      ensures ok == ContainsBox(root.boundary, b) && root.boundary == old(root.boundary)
      ensures ok ==> Keys(root) == old(Keys(root)) + {t}
      ensures EntriesOtherThan(root, t) == old(EntriesOtherThan(root, t))
      ensures ok && t !in old(Keys(root)) ==> Entries(root) == old(Entries(root)) + multiset{(t, b)}
    {
      InsertKeepsInside(root, t, b);
      InsertKeepsOthers(root, t, b);
      if ContainsBox(root.boundary, b) {
        InsertAddsKey(root, t, b);
        if t !in Keys(root) {
          InsertFresh(root, t, b);
        }
      }
      var r := NodeInsert(root, t, b);
      root, ok := r.0, r.1;
    }

    /** deleteT(t, b): succeeds exactly when find(t, b) reaches a node, and
        then removes that node's entry for t and nothing else. */
    method DeleteT(t: T, b: AABB) returns (ok: bool)
      requires Valid()
      modifies this
      ensures Valid() && (root, ok) == NodeDelete(old(root), t, b)
      ensures ok == NodeFind(old(root), t, b).Some?
      ensures ok ==> Entries(root) == old(Entries(root)) - multiset{(t, NodeFind(old(root), t, b).value.items[t])}
      ensures !ok ==> root == old(root)
    {
      DeleteKeepsShape(root, t, b);
      DeleteKeepsInside(root, t, b);
      if NodeFind(root, t, b).Some? {
        DeleteRemoves(root, t, b);
      }
      var r := NodeDelete(root, t, b);
      root, ok := r.0, r.1;
    }

    /** update(): updateClean; the source asserts that it succeeded. */
    method Update(t: T, oldpos: AABB, newpos: AABB) returns (ok: bool)
      requires Valid()
      modifies this
      ensures Valid() && (root, ok) == NodeUpdateClean(old(root), t, oldpos, newpos)
      ensures ok <==> NodeFind(old(root), t, oldpos).Some? && ContainsBox(root.boundary, newpos)
    {
      DeleteKeepsShape(root, t, oldpos);
      DeleteKeepsInside(root, t, oldpos);
      var d := NodeDelete(root, t, oldpos);
      InsertKeepsInside(d.0, t, newpos);
      var r := NodeUpdateClean(root, t, oldpos, newpos);
      root, ok := r.0, r.1;
    }

    /** clear(): every entry goes, every node stays. */
    method Clear()
      requires Valid()
      modifies this
      ensures Valid() && root == QuadNodes.Clear(old(root))
      ensures Entries(root) == multiset{} && SameShape(root, old(root))
    {
      ClearedInside(root);
      root := QuadNodes.Clear(root);
    }

    function Query(area: AABB): (r: multiset<T>)
      reads this
      requires Valid()
      ensures r == Hits(root, area)
    {
      QueryComplete(root, area);
      NodeQuery(root, area)
    }

    function Count(): (r: nat)
      reads this
      ensures r == |Entries(root)|
    {
      Size(root)
    }

    method Begin() returns (it: NodeIterator<T, AABB>)
      ensures fresh(it) && it.Valid()
      ensures it.atEnd <==> KeyBag(root) == multiset{}
      ensures it.Remaining() == KeyBag(root)
    {
      it := new NodeIterator(root, false);
    }

    method End() returns (it: NodeIterator<T, AABB>)
      ensures fresh(it) && it.atEnd && it.Remaining() == multiset{}
    {
      it := new NodeIterator(root, true);
    }
  }
}
