/** The node shape shared by the point quadtree and the line quadtree: a fixed
    boundary, a map from key to stored geometry for the entries held at this
    node, and either no children or exactly four (NW, NE, SW, SE). The
    children are owned values, so a node and its subtree form one datatype
    value; G is the stored geometry (a point or a box).

    Also here: what both trees do identically (size, clear, subdivide, and
    the breadth-first external iterator driven by a queue of nodes). */
module QuadNodes {
  import opened Partition
  import opened Seqs

  /** A node whose edge is at or below this length is never split. */
  const MinDimension: real := 8.0

  datatype Node<T(==), G> = Node(boundary: AABB, items: map<T, G>, kids: Kids<T, G>)

  datatype Kids<T(==), G> =
    | NoKids
    | Kids(nw: Node<T, G>, ne: Node<T, G>, sw: Node<T, G>, se: Node<T, G>)

  /** A freshly constructed node: no entries, no children. */
  function Leaf<T(==), G>(b: AABB): Node<T, G>
  {
    Node(b, map[], NoKids)
  }

  /** Both sides longer than the minimum dimension. */
  predicate Splittable(b: AABB)
  {
    b.half.x * 2.0 > MinDimension && b.half.y * 2.0 > MinDimension
  }

  /** Only nodes with both sides above the floor have children, and children
      are exactly the four quadrants of their parent. */
  ghost predicate WellShaped<T, G>(n: Node<T, G>)
    decreases n
  {
    match n.kids
    case NoKids => true
    case Kids(nw, ne, sw, se) =>
      Splittable(n.boundary) &&
      nw.boundary == NW(n.boundary) && ne.boundary == NE(n.boundary) &&
      sw.boundary == SW(n.boundary) && se.boundary == SE(n.boundary) &&
      WellShaped(nw) && WellShaped(ne) && WellShaped(sw) && WellShaped(se)
  }

  /** Every (key, geometry) pair stored anywhere in the subtree, counted once
      per node that stores it. */
  ghost function Entries<T, G>(n: Node<T, G>): multiset<(T, G)>
    decreases n
  {
    multiset(n.items.Items) +
    match n.kids
    case NoKids => multiset{}
    case Kids(nw, ne, sw, se) => Entries(nw) + Entries(ne) + Entries(sw) + Entries(se)
  }

  /** Every key stored anywhere in the subtree. */
  ghost function Keys<T, G>(n: Node<T, G>): set<T>
    decreases n
  {
    n.items.Keys +
    match n.kids
    case NoKids => {}
    case Kids(nw, ne, sw, se) => Keys(nw) + Keys(ne) + Keys(sw) + Keys(se)
  }

  /** The keys of the subtree, counted once per node that stores them. */
  ghost function KeyBag<T, G>(n: Node<T, G>): multiset<T>
    decreases n
  {
    multiset(n.items.Keys) +
    match n.kids
    case NoKids => multiset{}
    case Kids(nw, ne, sw, se) => KeyBag(nw) + (KeyBag(ne) + (KeyBag(sw) + (KeyBag(se) + multiset{})))
  }

  lemma ItemsCount<T, G>(m: map<T, G>)
    ensures |multiset(m.Items)| == |m| == |multiset(m.Keys)|
  {
  }

  /** size(): the local count plus the children's sizes. It is the number of
      entries in the subtree, and the number of keys an iteration yields. */
  function Size<T(==), G>(n: Node<T, G>): (r: nat)
    ensures r == |Entries(n)|
    decreases n
  {
    ItemsCount(n.items);
    |n.items| +
    match n.kids
    case NoKids => 0
    case Kids(nw, ne, sw, se) => Size(nw) + Size(ne) + Size(sw) + Size(se)
  }

  /** The size is also the number of keys an iteration yields. */
  lemma {:induction false} SizeCountsKeys<T, G>(n: Node<T, G>)
    ensures Size(n) == |KeyBag(n)|
    decreases n
  {
    ItemsCount(n.items);
    match n.kids
    case NoKids =>
    case Kids(nw, ne, sw, se) =>
      SizeCountsKeys(nw);
      SizeCountsKeys(ne);
      SizeCountsKeys(sw);
      SizeCountsKeys(se);
  }

  /** A key is stored somewhere exactly when some entry carries it. */
  lemma {:induction false} KeysOfEntries<T, G>(n: Node<T, G>, t: T, g: G)
    requires (t, g) in Entries(n)
    ensures t in Keys(n)
    decreases n
  {
    if (t, g) !in multiset(n.items.Items) {
      match n.kids
      case Kids(nw, ne, sw, se) =>
        if (t, g) in Entries(nw) {
          KeysOfEntries(nw, t, g);
        } else if (t, g) in Entries(ne) {
          KeysOfEntries(ne, t, g);
        } else if (t, g) in Entries(sw) {
          KeysOfEntries(sw, t, g);
        } else {
          KeysOfEntries(se, t, g);
        }
    }
  }

  /** Every entry of the subtree whose key is not t. */
  ghost function EntriesOtherThan<T, G>(n: Node<T, G>, t: T): multiset<(T, G)>
    decreases n
  {
    multiset((n.items - {t}).Items) +
    match n.kids
    case NoKids => multiset{}
    case Kids(nw, ne, sw, se) =>
      EntriesOtherThan(nw, t) + EntriesOtherThan(ne, t) + EntriesOtherThan(sw, t) + EntriesOtherThan(se, t)
  }

  /** A stored key has an entry that carries it. */
  lemma {:induction false} EntryOfKey<T, G>(n: Node<T, G>, t: T) returns (g: G)
    requires t in Keys(n)
    ensures (t, g) in Entries(n)
    decreases n
  {
    if t in n.items {
      g := n.items[t];
      assert (t, g) in n.items.Items;
    } else {
      match n.kids
      case Kids(nw, ne, sw, se) =>
        if t in Keys(nw) {
          g := EntryOfKey(nw, t);
        } else if t in Keys(ne) {
          g := EntryOfKey(ne, t);
        } else if t in Keys(sw) {
          g := EntryOfKey(sw, t);
        } else {
          g := EntryOfKey(se, t);
        }
    }
  }

  lemma SameMembers<T, G>(a: set<(T, G)>, b: set<(T, G)>)
    requires forall e :: e in a <==> e in b
    ensures a == b
  {
  }

  /** Storing under a key the map lacks adds exactly that entry. */
  lemma MapPutFresh<T, G>(m: map<T, G>, t: T, g: G)
    requires t !in m
    ensures multiset(m[t := g].Items) == multiset(m.Items) + multiset{(t, g)}
    ensures m[t := g] - {t} == m - {t}
  {
    var a := m[t := g].Items;
    var b := m.Items + {(t, g)};
    forall e | e in a ensures e in b {
      var (k, v) := e;
      assert k in m[t := g] && m[t := g][k] == v;
      if k != t {
        assert k in m && m[k] == v;
      }
    }
    forall e | e in b ensures e in a {
      var (k, v) := e;
      if e == (t, g) {
        assert t in m[t := g] && m[t := g][t] == g;
      } else {
        assert e in m.Items;
        assert k in m && m[k] == v;
        assert k in m[t := g] && m[t := g][k] == v;
      }
    }
    SameMembers(a, b);
    assert (t, g) !in m.Items;
  }

  /** Erasing a present key takes away exactly its entry. */
  lemma MapErase<T, G>(m: map<T, G>, t: T)
    requires t in m
    ensures multiset((m - {t}).Items) == multiset(m.Items) - multiset{(t, m[t])}
    ensures (m - {t}) - {t} == m - {t}
  {
    var a := m.Items;
    var b := (m - {t}).Items + {(t, m[t])};
    forall e | e in a ensures e in b {
      var (k, v) := e;
      assert k in m && m[k] == v;
      if k != t {
        assert k in m - {t} && (m - {t})[k] == v;
      }
    }
    forall e | e in b ensures e in a {
      var (k, v) := e;
      if e != (t, m[t]) {
        assert e in (m - {t}).Items;
        assert k in m - {t} && (m - {t})[k] == v;
        assert k in m && m[k] == v;
      }
    }
    SameMembers(a, b);
    assert (t, m[t]) !in (m - {t}).Items;
  }

  /** subdivide(): give a childless node its four empty quadrants, which keep
      the tree well shaped when the node is above the floor. With exact
      arithmetic they cover the node and lie inside it (Partition's
      QuadrantsCover and QuadrantsInside). */
  function Subdivide<T(==), G>(n: Node<T, G>): (r: Node<T, G>)
    requires n.kids.NoKids?
    ensures r.boundary == n.boundary && r.items == n.items && r.kids.Kids?
    ensures Splittable(n.boundary) ==> WellShaped(r)
  {
    var b := n.boundary;
    n.(kids := Kids(Leaf(NW(b)), Leaf(NE(b)), Leaf(SW(b)), Leaf(SE(b))))
  }

  /** A fresh leaf holds nothing. */
  lemma LeafEmpty<T, G>(b: AABB, t: T)
    ensures Entries(Leaf<T, G>(b)) == multiset{} && Keys(Leaf<T, G>(b)) == {}
    ensures KeyBag(Leaf<T, G>(b)) == multiset{} && EntriesOtherThan(Leaf<T, G>(b), t) == multiset{}
  {
  }

  /** Subdividing moves no entry: the new children are empty. */
  lemma SubdivideKeeps<T, G>(n: Node<T, G>, t: T)
    requires n.kids.NoKids?
    ensures Entries(Subdivide(n)) == Entries(n) && Keys(Subdivide(n)) == Keys(n)
    ensures KeyBag(Subdivide(n)) == KeyBag(n) && EntriesOtherThan(Subdivide(n), t) == EntriesOtherThan(n, t)
  {
    var b := n.boundary;
    LeafEmpty<T, G>(NW(b), t);
    LeafEmpty<T, G>(NE(b), t);
    LeafEmpty<T, G>(SW(b), t);
    LeafEmpty<T, G>(SE(b), t);
  }

  /** The node about to pass an entry on: subdivided first if it has no
      children yet, so a node is split at most once. */
  function Divided<T(==), G>(n: Node<T, G>): (s: Node<T, G>)
    ensures s.boundary == n.boundary && s.items == n.items && s.kids.Kids?
    ensures n.kids.Kids? ==> s == n
  {
    if n.kids.NoKids? then Subdivide(n) else n
  }

  /** Dividing a node moves no entry. */
  lemma DividedKeeps<T, G>(n: Node<T, G>, t: T)
    ensures Entries(Divided(n)) == Entries(n) && Keys(Divided(n)) == Keys(n)
    ensures KeyBag(Divided(n)) == KeyBag(n) && EntriesOtherThan(Divided(n), t) == EntriesOtherThan(n, t)
  {
    if n.kids.NoKids? {
      SubdivideKeeps(n, t);
    }
  }

  /** Dividing a well-shaped node above the floor keeps it well shaped. */
  lemma DividedShape<T, G>(n: Node<T, G>)
    requires WellShaped(n) && Splittable(n.boundary)
    ensures WellShaped(Divided(n))
  {
  }

  /** Child i in the order NW, NE, SW, SE. */
  function Kid<T(==), G>(n: Node<T, G>, i: nat): (c: Node<T, G>)
    requires n.kids.Kids? && i < 4
    ensures NodeCount(c) < NodeCount(n)
  {
    if i == 0 then n.kids.nw else if i == 1 then n.kids.ne else if i == 2 then n.kids.sw else n.kids.se
  }

  /** The children of a well-shaped node are its quadrants. */
  lemma KidQuadrants<T, G>(n: Node<T, G>)
    requires n.kids.Kids? && WellShaped(n)
    ensures Kid(n, 0).boundary == NW(n.boundary) && Kid(n, 1).boundary == NE(n.boundary)
    ensures Kid(n, 2).boundary == SW(n.boundary) && Kid(n, 3).boundary == SE(n.boundary)
  {
  }

  /** A child of a well-shaped node is well shaped. */
  lemma KidShape<T, G>(n: Node<T, G>, i: nat)
    requires n.kids.Kids? && i < 4 && WellShaped(n)
    ensures WellShaped(Kid(n, i))
  {
  }

  /** A child of a well-shaped node is at most half as wide, so descending
      into children ends: this is the measure insert decreases. */
  lemma KidShrinks<T, G>(n: Node<T, G>, i: nat)
    requires n.kids.Kids? && i < 4 && WellShaped(n)
    ensures Kid(n, i).boundary.half.x.Floor < n.boundary.half.x.Floor
  {
    var h := n.boundary.half.x;
    assert Kid(n, i).boundary.half.x == h * 0.5;
    assert h > 4.0;
    assert (h * 0.5).Floor as real <= h * 0.5 < h - 1.0 < n.boundary.half.x.Floor as real;
  }

  /** The node with child i replaced by c. */
  function WithKid<T(==), G>(n: Node<T, G>, i: nat, c: Node<T, G>): (r: Node<T, G>)
    requires n.kids.Kids? && i < 4
    ensures r.boundary == n.boundary && r.items == n.items && r.kids.Kids? && Kid(r, i) == c
    ensures forall j :: 0 <= j < 4 && j != i ==> Kid(r, j) == Kid(n, j)
  {
    if i == 0 then n.(kids := n.kids.(nw := c))
    else if i == 1 then n.(kids := n.kids.(ne := c))
    else if i == 2 then n.(kids := n.kids.(sw := c))
    else n.(kids := n.kids.(se := c))
  }

  /** Replacing one child changes the subtree's entries by what changed in
      that child. */
  lemma WithKidEntries<T, G>(n: Node<T, G>, i: nat, c: Node<T, G>)
    requires n.kids.Kids? && i < 4
    ensures Entries(WithKid(n, i, c)) + Entries(Kid(n, i)) == Entries(n) + Entries(c)
  {
    var k := n.kids;
    var r := WithKid(n, i, c);
    assert Entries(n) == multiset(n.items.Items) + (Entries(k.nw) + Entries(k.ne) + Entries(k.sw) + Entries(k.se));
    if i == 0 {
      assert r == Node(n.boundary, n.items, Kids(c, k.ne, k.sw, k.se));
      assert Entries(r) == multiset(n.items.Items) + (Entries(c) + Entries(k.ne) + Entries(k.sw) + Entries(k.se));
    } else if i == 1 {
      assert r == Node(n.boundary, n.items, Kids(k.nw, c, k.sw, k.se));
      assert Entries(r) == multiset(n.items.Items) + (Entries(k.nw) + Entries(c) + Entries(k.sw) + Entries(k.se));
    } else if i == 2 {
      assert r == Node(n.boundary, n.items, Kids(k.nw, k.ne, c, k.se));
      assert Entries(r) == multiset(n.items.Items) + (Entries(k.nw) + Entries(k.ne) + Entries(c) + Entries(k.se));
    } else {
      assert r == Node(n.boundary, n.items, Kids(k.nw, k.ne, k.sw, c));
      assert Entries(r) == multiset(n.items.Items) + (Entries(k.nw) + Entries(k.ne) + Entries(k.sw) + Entries(c));
    }
  }

  /** An entry of a child is an entry of its parent. */
  lemma KidEntryIncluded<T, G>(n: Node<T, G>, i: nat, x: (T, G))
    requires n.kids.Kids? && i < 4 && x in Entries(Kid(n, i))
    ensures x in Entries(n)
  {
    var k := n.kids;
    var e := Entries(k.nw) + Entries(k.ne) + Entries(k.sw) + Entries(k.se);
    assert Entries(n) == multiset(n.items.Items) + e;
    assert x in e;
  }

  /** An entry of a parent that its own map does not hold belongs to one of
      its children. */
  lemma EntryInSomeKid<T, G>(n: Node<T, G>, x: (T, G)) returns (j: nat)
    requires n.kids.Kids? && x in Entries(n) && x !in multiset(n.items.Items)
    ensures j < 4 && x in Entries(Kid(n, j))
  {
    var k := n.kids;
    assert Entries(n) == multiset(n.items.Items) + (Entries(k.nw) + Entries(k.ne) + Entries(k.sw) + Entries(k.se));
    if x in Entries(k.nw) {
      j := 0;
    } else if x in Entries(k.ne) {
      j := 1;
    } else if x in Entries(k.sw) {
      j := 2;
    } else {
      j := 3;
    }
  }

  /** An entry of the new child is an entry of the parent. */
  lemma WithKidHolds<T, G>(n: Node<T, G>, i: nat, c: Node<T, G>, x: (T, G))
    requires n.kids.Kids? && i < 4 && x in Entries(c)
    ensures x in Entries(WithKid(n, i, c))
  {
    KidEntryIncluded(WithKid(n, i, c), i, x);
  }

  /** A child that gained entries m makes its parent gain exactly m. */
  lemma WithKidAdds<T, G>(n: Node<T, G>, i: nat, c: Node<T, G>, m: multiset<(T, G)>)
    requires n.kids.Kids? && i < 4 && Entries(c) == Entries(Kid(n, i)) + m
    ensures Entries(WithKid(n, i, c)) == Entries(n) + m
  {
    WithKidEntries(n, i, c);
    CancelAdd(Entries(WithKid(n, i, c)), Entries(Kid(n, i)), Entries(n), m);
  }

  /** A child that lost entry x makes its parent lose exactly x. */
  lemma WithKidRemoves<T, G>(n: Node<T, G>, i: nat, c: Node<T, G>, x: (T, G))
    requires n.kids.Kids? && i < 4 && x in Entries(Kid(n, i))
    requires Entries(c) == Entries(Kid(n, i)) - multiset{x}
    ensures Entries(WithKid(n, i, c)) == Entries(n) - multiset{x}
  {
    WithKidEntries(n, i, c);
    CancelRemove(Entries(WithKid(n, i, c)), Entries(Kid(n, i)), Entries(n), x);
  }

  /** A key missing from a node is missing from each child. */
  lemma KeyOfKid<T, G>(s: Node<T, G>, i: nat, t: T)
    requires s.kids.Kids? && i < 4 && t !in Keys(s)
    ensures t !in Keys(Kid(s, i))
  {
  }

  /** The entries under keys other than t change only if the child's do. */
  lemma WithKidOthers<T, G>(n: Node<T, G>, i: nat, c: Node<T, G>, t: T)
    requires n.kids.Kids? && i < 4 && EntriesOtherThan(c, t) == EntriesOtherThan(Kid(n, i), t)
    ensures EntriesOtherThan(WithKid(n, i, c), t) == EntriesOtherThan(n, t)
  {
    var k := n.kids;
    var r := WithKid(n, i, c);
    assert EntriesOtherThan(n, t) == multiset((n.items - {t}).Items) + (EntriesOtherThan(k.nw, t) + EntriesOtherThan(k.ne, t) + EntriesOtherThan(k.sw, t) + EntriesOtherThan(k.se, t));
    if i == 0 {
      assert r == Node(n.boundary, n.items, Kids(c, k.ne, k.sw, k.se));
      assert EntriesOtherThan(r, t) == multiset((n.items - {t}).Items) + (EntriesOtherThan(c, t) + EntriesOtherThan(k.ne, t) + EntriesOtherThan(k.sw, t) + EntriesOtherThan(k.se, t));
    } else if i == 1 {
      assert r == Node(n.boundary, n.items, Kids(k.nw, c, k.sw, k.se));
      assert EntriesOtherThan(r, t) == multiset((n.items - {t}).Items) + (EntriesOtherThan(k.nw, t) + EntriesOtherThan(c, t) + EntriesOtherThan(k.sw, t) + EntriesOtherThan(k.se, t));
    } else if i == 2 {
      assert r == Node(n.boundary, n.items, Kids(k.nw, k.ne, c, k.se));
      assert EntriesOtherThan(r, t) == multiset((n.items - {t}).Items) + (EntriesOtherThan(k.nw, t) + EntriesOtherThan(k.ne, t) + EntriesOtherThan(c, t) + EntriesOtherThan(k.se, t));
    } else {
      assert r == Node(n.boundary, n.items, Kids(k.nw, k.ne, k.sw, c));
      assert EntriesOtherThan(r, t) == multiset((n.items - {t}).Items) + (EntriesOtherThan(k.nw, t) + EntriesOtherThan(k.ne, t) + EntriesOtherThan(k.sw, t) + EntriesOtherThan(c, t));
    }
  }

  /** A child that gained key t makes its parent gain key t. */
  lemma WithKidKeys<T, G>(n: Node<T, G>, i: nat, c: Node<T, G>, t: T)
    requires n.kids.Kids? && i < 4 && Keys(c) == Keys(Kid(n, i)) + {t}
    ensures Keys(WithKid(n, i, c)) == Keys(n) + {t}
  {
    var k := n.kids;
    var r := WithKid(n, i, c);
    assert Keys(n) == n.items.Keys + (Keys(k.nw) + Keys(k.ne) + Keys(k.sw) + Keys(k.se));
    if i == 0 {
      assert Keys(r) == n.items.Keys + (Keys(c) + Keys(k.ne) + Keys(k.sw) + Keys(k.se));
    } else if i == 1 {
      assert Keys(r) == n.items.Keys + (Keys(k.nw) + Keys(c) + Keys(k.sw) + Keys(k.se));
    } else if i == 2 {
      assert Keys(r) == n.items.Keys + (Keys(k.nw) + Keys(k.ne) + Keys(c) + Keys(k.se));
    } else {
      assert Keys(r) == n.items.Keys + (Keys(k.nw) + Keys(k.ne) + Keys(k.sw) + Keys(c));
    }
  }

  /** A well-shaped child with the old child's boundary keeps the parent
      well shaped. */
  lemma WithKidShape<T, G>(n: Node<T, G>, i: nat, c: Node<T, G>)
    requires n.kids.Kids? && i < 4 && WellShaped(n) && WellShaped(c) && c.boundary == Kid(n, i).boundary
    ensures WellShaped(WithKid(n, i, c))
  {
  }

  /** The same boundaries and the same children structure. */
  ghost predicate SameShape<T, G>(a: Node<T, G>, b: Node<T, G>)
    decreases a
  {
    a.boundary == b.boundary &&
    match a.kids
    case NoKids => b.kids.NoKids?
    case Kids(nw, ne, sw, se) =>
      b.kids.Kids? && SameShape(nw, b.kids.nw) && SameShape(ne, b.kids.ne) &&
      SameShape(sw, b.kids.sw) && SameShape(se, b.kids.se)
  }

  /** clear(): empty every node's map but keep every child. */
  function Clear<T(==), G>(n: Node<T, G>): (r: Node<T, G>)
    ensures Entries(r) == multiset{} && Keys(r) == {}
    ensures SameShape(r, n)
    ensures WellShaped(n) ==> WellShaped(r)
    decreases n
  {
    match n.kids
    case NoKids => Node(n.boundary, map[], NoKids)
    case Kids(nw, ne, sw, se) => Node(n.boundary, map[], Kids(Clear(nw), Clear(ne), Clear(sw), Clear(se)))
  }

  /** The children in the order the iterator queues them. */
  function KidsList<T(==), G>(n: Node<T, G>): (r: seq<Node<T, G>>)
    ensures |r| == 0 || |r| == 4
  {
    match n.kids
    case NoKids => []
    case Kids(nw, ne, sw, se) => [nw, ne, sw, se]
  }

  /** The keys held by the subtrees of a queue of nodes. */
  ghost function QueueBag<T, G>(q: seq<Node<T, G>>): multiset<T>
    decreases |q|
  {
    if q == [] then multiset{} else KeyBag(q[0]) + QueueBag(q[1..])
  }

  /** The number of nodes in a subtree. */
  function NodeCount<T(==), G>(n: Node<T, G>): (r: nat)
    ensures r >= 1
    decreases n
  {
    match n.kids
    case NoKids => 1
    case Kids(nw, ne, sw, se) => 1 + (NodeCount(nw) + (NodeCount(ne) + (NodeCount(sw) + (NodeCount(se) + 0))))
  }

  /** The number of nodes in the subtrees of a queue of nodes. */
  function Weight<T(==), G>(q: seq<Node<T, G>>): nat
    decreases |q|
  {
    if q == [] then 0 else NodeCount(q[0]) + Weight(q[1..])
  }

  lemma {:induction false} QueueAppend<T, G>(a: seq<Node<T, G>>, b: seq<Node<T, G>>)
    ensures QueueBag(a + b) == QueueBag(a) + QueueBag(b)
    ensures Weight(a + b) == Weight(a) + Weight(b)
    decreases |a|
  {
    if a == [] {
      assert a + b == b;
    } else {
      assert (a + b)[1..] == a[1..] + b;
      QueueAppend(a[1..], b);
    }
  }

  lemma QueueCons<T, G>(a: Node<T, G>, q: seq<Node<T, G>>)
    ensures QueueBag([a] + q) == KeyBag(a) + QueueBag(q)
    ensures Weight([a] + q) == NodeCount(a) + Weight(q)
  {
    assert ([a] + q)[1..] == q;
  }

  /** A node's keys are its own plus those of the children it queues. */
  lemma KidsQueue<T, G>(n: Node<T, G>)
    ensures KeyBag(n) == multiset(n.items.Keys) + QueueBag(KidsList(n))
    ensures NodeCount(n) == 1 + Weight(KidsList(n))
  {
    match n.kids
    case NoKids =>
    case Kids(nw, ne, sw, se) =>
      QueueCons(se, []);
      assert [se] + [] == [se];
      QueueCons(sw, [se]);
      QueueCons(ne, [sw, se]);
      assert [ne] + [sw, se] == [ne, sw, se];
      QueueCons(nw, [ne, sw, se]);
      assert [nw] + [ne, sw, se] == [nw, ne, sw, se];
  }

  /** The keys an iterator with queue q and unvisited front-node keys p has
      still to visit. */
  ghost function Ahead<T, G>(q: seq<Node<T, G>>, p: seq<T>): multiset<T>
    requires q != []
  {
    multiset(p) + QueueBag(KidsList(q[0])) + QueueBag(q[1..])
  }

  /** Popping a drained front node and queueing its children, then taking
      the keys of the new front node, leaves the keys still to be visited
      unchanged and removes one node from the work left. */
  lemma {:induction false} PopAndQueueKids<T, G>(q: seq<Node<T, G>>, ks: seq<T>)
    requires q != []
    requires q[1..] + KidsList(q[0]) != []
    requires multiset(ks) == multiset((q[1..] + KidsList(q[0]))[0].items.Keys)
    ensures Ahead(q[1..] + KidsList(q[0]), ks) == Ahead(q, [])
    ensures Weight(q[1..] + KidsList(q[0])) < Weight(q)
  {
    var q' := q[1..] + KidsList(q[0]);
    AheadIsQueue(q', ks);
    AheadOfDrained(q);
    assert q == [q[0]] + q[1..];
    QueueCons(q[0], q[1..]);
    KidsQueue(q[0]);
    QueueAppend(q[1..], KidsList(q[0]));
  }

  /** With all of the front node's keys pending, what is ahead is everything
      the queue holds. */
  lemma AheadIsQueue<T, G>(q: seq<Node<T, G>>, ks: seq<T>)
    requires q != [] && multiset(ks) == multiset(q[0].items.Keys)
    ensures Ahead(q, ks) == QueueBag(q)
  {
    assert q == [q[0]] + q[1..];
    calc {
      Ahead(q, ks);
      multiset(q[0].items.Keys) + QueueBag(KidsList(q[0])) + QueueBag(q[1..]);
      { KidsQueue(q[0]); }
      KeyBag(q[0]) + QueueBag(q[1..]);
      { QueueCons(q[0], q[1..]); }
      QueueBag(q);
    }
  }

  /** With the front node drained, what is ahead is what the queue holds
      once the front node's children are queued behind the rest. */
  lemma AheadOfDrained<T, G>(q: seq<Node<T, G>>)
    requires q != []
    ensures Ahead(q, []) == QueueBag(q[1..] + KidsList(q[0]))
  {
    QueueAppend(q[1..], KidsList(q[0]));
    BagSwap(QueueBag(q[1..]), QueueBag(KidsList(q[0])));
  }

  lemma BagSwap<X>(a: multiset<X>, b: multiset<X>)
    ensures a + b == multiset([]) + b + a
  {
    forall x ensures (a + b)[x] == (multiset([]) + b + a)[x] {
    }
  }

  /** When nothing is left to queue, nothing is left to visit. */
  lemma {:induction false} DrainedQueue<T, G>(q: seq<Node<T, G>>)
    requires q != [] && q[1..] + KidsList(q[0]) == []
    ensures Ahead(q, []) == multiset{}
  {
    assert KidsList(q[0]) == [] && q[1..] == [];
  }

  /** The keys of one node's map, each once, in an unspecified order (the
      std::map being walked orders them by key). */
  method KeysOf<T(==), G>(m: map<T, G>) returns (ks: seq<T>)
    ensures multiset(ks) == multiset(m.Keys)
  {
    ks := [];
    var rest := m.Keys;
    while rest != {}
      invariant rest <= m.Keys
      invariant multiset(ks) + multiset(rest) == multiset(m.Keys)
      decreases rest
    {
      var k :| k in rest;
      assert multiset(rest) == multiset(rest - {k}) + multiset{k};
      ks := ks + [k];
      rest := rest - {k};
    }
  }

  /** QTIterator / LQTIterator: a queue of nodes whose front node is being
      drained, the keys of that node not yet visited, and the end flag. */
  class NodeIterator<T(==), G> {
    var queue: seq<Node<T, G>>
    var pending: seq<T>
    var atEnd: bool

    /** Unless at the end, the cursor points at a key of the front node. */
    ghost predicate Valid()
      reads this
    {
      !atEnd ==> queue != [] && pending != []
    }

    /** The keys the iteration has still to visit: the rest of the front
        node, its children (queued once it is drained), and the subtrees of
        the nodes behind it. */
    ghost function Remaining(): multiset<T>
      reads this
    {
      if atEnd || queue == [] then multiset{}
      else Ahead(queue, pending)
    }

    /** begin() when atEnd is false, end() when it is true. */
    constructor (root: Node<T, G>, atEnd: bool)
      ensures Valid() && this.atEnd == (atEnd || KeyBag(root) == multiset{})
      ensures atEnd ==> Remaining() == multiset{}
      ensures !atEnd ==> Remaining() == KeyBag(root)
    {
      queue := [root];
      pending := [];
      this.atEnd := atEnd;
      new;
      if !atEnd {
        Start(root);
      }
    }

    /** The first step of begin(): take the root's keys, then skip to the
        first node that has any. */
    method Start(root: Node<T, G>)
      requires queue == [root] && pending == [] && !atEnd
      modifies this
      ensures Valid() && Remaining() == KeyBag(root)
      ensures atEnd <==> KeyBag(root) == multiset{}
    {
      pending := KeysOf(root.items);
      KidsQueue(root);
      assert queue[1..] == [];
      assert Ahead(queue, pending) == KeyBag(root);
      Next();
    }

    /** Advance past drained nodes, queueing their children, until a key is
        available or the queue is empty. */
    method Next()
      requires !atEnd && queue != []
      modifies this
      ensures Valid()
      ensures Remaining() == old(Ahead(queue, pending))
      ensures atEnd <==> Remaining() == multiset{}
    {
      ghost var total := Ahead(queue, pending);
      while pending == []
        invariant queue != [] && !atEnd
        invariant Ahead(queue, pending) == total
        decreases Weight(queue)
      {
        var top := queue[0];
        if queue[1..] + KidsList(top) == [] {
          DrainedQueue(queue);
          queue := [];
          atEnd := true;
          return;
        }
        var ks := KeysOf((queue[1..] + KidsList(top))[0].items);
        PopAndQueueKids(queue, ks);
        queue := queue[1..] + KidsList(top);
        pending := ks;
      }
      assert pending[0] in Ahead(queue, pending);
    }

    /** operator*: the key under the cursor. */
    function Current(): (t: T)
      reads this
      requires Valid() && !atEnd
      ensures t in Remaining()
    {
      pending[0]
    }

    /** operator++: step past the current key. */
    method Increment()
      requires Valid() && !atEnd
      modifies this
      ensures Valid()
      ensures old(Remaining()) == Remaining() + multiset{old(Current())}
    {
      assert pending == [pending[0]] + pending[1..];
      pending := pending[1..];
      Next();
    }

    /** operator!=: iterators differ exactly when one of them is at the end. */
    predicate NotEqual(other: NodeIterator<T, G>)
      reads this, other
    {
      atEnd != other.atEnd
    }
  }

  /** Walking an iterator from begin() until it equals end() visits as many
      keys as size() reports. */
  method CountEntries<T(==), G>(root: Node<T, G>) returns (count: nat)
    ensures count == Size(root)
  {
    SizeCountsKeys(root);
    var it := new NodeIterator(root, false);
    var last := new NodeIterator(root, true);
    count := 0;
    while it.NotEqual(last)
      invariant it.Valid() && last.atEnd && it != last
      invariant count + |it.Remaining()| == |KeyBag(root)|
      decreases |it.Remaining()|
    {
      count := count + 1;
      it.Increment();
    }
  }
}
