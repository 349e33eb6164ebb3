/** A* search over a graph given by caller-supplied functions
    (AStar<T>::solve): g lists the children of a node, c prices an edge,
    h estimates the remaining cost and goal tests for the target. The node
    universe U is finite and closed under g, which is what makes the
    search stop. */
module AStarSearch {
  import opened Seqs

  /** The local state of solve: the expanded set, the g-cost and parent
      maps, and the open queue as (f-cost, node) entries. */
  datatype Search<T> = Search(visited: set<T>, cost: map<T, int>, parents: map<T, T>, open: seq<(int, T)>)

  /** cost_here[x] through std::map::operator[]: 0 for a node not yet in the map. */
  function GCost<T(!new)>(cost: map<T, int>, x: T): int
  {
    if x in cost then cost[x] else 0
  }

  /** The nodes with an entry in the open queue. */
  function Nodes<T(!new)>(open: seq<(int, T)>): set<T>
  {
    set i | 0 <= i < |open| :: open[i].1
  }

  /** The queue with entry i popped. */
  function Without<T(!new)>(open: seq<(int, T)>, i: nat): (r: seq<(int, T)>)
    requires i < |open|
    ensures |r| == |open| - 1
    ensures forall j :: 0 <= j < |r| ==> r[j] == open[if j < i then j else j + 1]
  {
    open[..i] + open[i + 1..]
  }

  /** Every node of U has all its children in U. */
  ghost predicate Closed<T(!new)>(g: T -> set<T>, U: set<T>)
  {
    forall a :: a in U ==> g(a) <= U
  }

  /** An edge the search follows: b is a child of a and the edge cost is
      not negative. */
  ghost predicate Edge<T(!new)>(g: T -> set<T>, c: (T, T) -> int, a: T, b: T)
  {
    b in g(a) && c(a, b) >= 0
  }

  /** Consecutive nodes of w are joined by followed edges. */
  ghost predicate IsWalk<T(!new)>(g: T -> set<T>, c: (T, T) -> int, w: seq<T>)
  {
    forall i :: 0 <= i < |w| - 1 ==> Edge(g, c, w[i], w[i + 1])
  }

  /** Everything the search touches lies in U. */
  ghost predicate InU<T(!new)>(U: set<T>, start: T, s: Search<T>)
  {
    start in U && s.visited <= U && (forall i :: 0 <= i < |s.open| ==> s.open[i].1 in U)
  }

  /** order lists the expanded nodes in expansion order, each once, and
      rank gives each one's position. */
  ghost predicate Ranked<T(!new)>(visited: set<T>, order: seq<T>, rank: map<T, nat>)
  {
    (forall i :: 0 <= i < |order| ==> order[i] in visited && order[i] in rank && rank[order[i]] == i) &&
    (forall x :: x in visited ==> x in rank && rank[x] < |order| && order[rank[x]] == x)
  }

  /** Every parent link joins an expanded node to one of its children
      along a followed edge, never points back to start, and once the
      child is expanded too, its parent was expanded before it. */
  ghost predicate Linked<T(!new)>(g: T -> set<T>, c: (T, T) -> int, start: T, s: Search<T>, rank: map<T, nat>)
  {
    forall x :: x in s.parents ==>
      s.parents[x] in s.visited && Edge(g, c, s.parents[x], x) && x != start &&
      (x in s.visited ==> s.parents[x] in rank && x in rank && rank[s.parents[x]] < rank[x])
  }

  /** Every expanded or queued node other than start has a parent. */
  ghost predicate Reached<T(!new)>(start: T, s: Search<T>)
  {
    (forall x :: x in s.visited ==> x == start || x in s.parents) &&
    (forall i :: 0 <= i < |s.open| ==> s.open[i].1 == start || s.open[i].1 in s.parents)
  }

  /** Every node with a cost that is not yet expanded still has an entry in
      the queue, and so does start until it is expanded. */
  ghost predicate Pending<T(!new)>(start: T, s: Search<T>)
  {
    (start in s.visited || start in Nodes(s.open)) &&
    (forall y :: y in s.cost && y !in s.visited ==> y in Nodes(s.open))
  }

  /** Every followed edge out of an expanded node leads to a node that is
      expanded or has a cost (and so, by Pending, is queued). */
  ghost predicate Closure<T(!new)>(g: T -> set<T>, c: (T, T) -> int, s: Search<T>)
  {
    forall a, b :: a in s.visited && Edge(g, c, a, b) ==> b in s.visited || b in s.cost
  }

  /** The invariant of the main loop. path is empty while no goal has been
      expanded, and holds the goal once one has. */
  ghost predicate Inv<T(!new)>(g: T -> set<T>, c: (T, T) -> int, goal: T -> bool, start: T, U: set<T>,
                         s: Search<T>, order: seq<T>, rank: map<T, nat>, path: seq<T>)
  {
    InU(U, start, s) && Ranked(s.visited, order, rank) && Linked(g, c, start, s, rank) && Reached(start, s) &&
    (s.visited == {} ==> s.open == [(0, start)] && path == []) &&
    (s.visited != {} ==> start in s.visited) &&
    (path == [] ==> Pending(start, s) && Closure(g, c, s) && forall x :: x in s.visited ==> !goal(x)) &&
    (path != [] ==> |path| == 1 && path[0] in s.visited && goal(path[0]) && (goal(start) ==> path[0] == start))
  }

  /** The invariant of the loop over the children of cur: as Inv, except
      that the edges out of cur are closed only for the children already
      handled. */
  ghost predicate ExpInv<T(!new)>(g: T -> set<T>, c: (T, T) -> int, goal: T -> bool, start: T, U: set<T>,
                            s: Search<T>, order: seq<T>, rank: map<T, nat>, cur: T, remaining: set<T>)
  {
    InU(U, start, s) && Ranked(s.visited, order, rank) && Linked(g, c, start, s, rank) && Reached(start, s) &&
    Pending(start, s) && start in s.visited && cur in s.visited && remaining <= g(cur) &&
    (forall x :: x in s.visited ==> !goal(x)) &&
    (forall a, b :: a in s.visited && a != cur && Edge(g, c, a, b) ==> b in s.visited || b in s.cost) &&
    (forall b :: Edge(g, c, cur, b) && b !in remaining ==> b in s.visited || b in s.cost)
  }

  /** The priority queue's top: the index of an entry of least f-cost
      (std::priority_queue with CompFunc is a min-queue on f). Among equal
      f-costs the first queued is taken. */
  method PopMin<T(!new)>(open: seq<(int, T)>) returns (i: nat)
    requires open != []
    ensures i < |open|
    ensures forall j :: 0 <= j < |open| ==> open[i].0 <= open[j].0
  {
    i := 0;
    var k := 1;
    while k < |open|
      invariant i < k <= |open|
      invariant forall j :: 0 <= j < k ==> open[i].0 <= open[j].0
    {
      if open[k].0 < open[i].0 {
        i := k;
      }
      k := k + 1;
    }
  }

  /** Popping a queue entry keeps every other entry. */
  lemma WithoutNodes<T(!new)>(open: seq<(int, T)>, i: nat)
    requires i < |open|
    ensures Nodes(Without(open, i)) <= Nodes(open)
    ensures forall y :: y in Nodes(open) && y != open[i].1 ==> y in Nodes(Without(open, i))
  {
    var r := Without(open, i);
    forall y | y in Nodes(open) && y != open[i].1
      ensures y in Nodes(r)
    {
      var j :| 0 <= j < |open| && open[j].1 == y;
      assert r[if j < i then j else j - 1] == open[j];
    }
  }

  /** A stale queue entry for an expanded node is dropped without changing
      anything else. */
  lemma SkipKeeps<T(!new)>(g: T -> set<T>, c: (T, T) -> int, goal: T -> bool, start: T, U: set<T>,
                     s: Search<T>, order: seq<T>, rank: map<T, nat>, i: nat, s': Search<T>)
    requires Inv(g, c, goal, start, U, s, order, rank, []) && i < |s.open| && s.open[i].1 in s.visited
    requires s' == s.(open := Without(s.open, i))
    ensures Inv(g, c, goal, start, U, s', order, rank, [])
  {
    WithoutNodes(s.open, i);
  }

  /** Expanding the node of queue entry i: it joins the expanded set as
      the last in order, and the parent links stay well founded. */
  lemma VisitLinks<T(!new)>(g: T -> set<T>, c: (T, T) -> int, goal: T -> bool, start: T, U: set<T>,
                            s: Search<T>, order: seq<T>, rank: map<T, nat>, i: nat,
                            s': Search<T>, order': seq<T>, rank': map<T, nat>)
    requires Inv(g, c, goal, start, U, s, order, rank, []) && i < |s.open| && s.open[i].1 !in s.visited
    requires s' == Search(s.visited + {s.open[i].1}, s.cost, s.parents, Without(s.open, i))
    requires order' == order + [s.open[i].1] && rank' == rank[s.open[i].1 := |order|]
    ensures InU(U, start, s') && Ranked(s'.visited, order', rank') && Linked(g, c, start, s', rank')
    ensures Reached(start, s')
  {
    var cur := s.open[i].1;
    forall x | x in s'.parents && x in s'.visited
      ensures s'.parents[x] in rank' && x in rank' && rank'[s'.parents[x]] < rank'[x]
    {
      if x == cur {
        assert s.parents[x] in s.visited;
      }
    }
  }

  /** Expanding the node of queue entry i keeps every costed node queued
      or expanded; the first node expanded is start. */
  lemma VisitPending<T(!new)>(g: T -> set<T>, c: (T, T) -> int, goal: T -> bool, start: T, U: set<T>,
                              s: Search<T>, order: seq<T>, rank: map<T, nat>, i: nat, s': Search<T>)
    requires Inv(g, c, goal, start, U, s, order, rank, []) && i < |s.open| && s.open[i].1 !in s.visited
    requires s' == Search(s.visited + {s.open[i].1}, s.cost, s.parents, Without(s.open, i))
    ensures Pending(start, s') && start in s'.visited
    ensures goal(start) ==> s.open[i].1 == start
    ensures forall x :: x in s.visited ==> !goal(x)
    ensures forall a, b :: a in s.visited && Edge(g, c, a, b) ==> b in s'.visited || b in s'.cost
  {
    WithoutNodes(s.open, i);
  }

  lemma VisitKeeps<T(!new)>(g: T -> set<T>, c: (T, T) -> int, goal: T -> bool, start: T, U: set<T>,
                            s: Search<T>, order: seq<T>, rank: map<T, nat>, i: nat,
                            s': Search<T>, order': seq<T>, rank': map<T, nat>)
    requires Inv(g, c, goal, start, U, s, order, rank, []) && i < |s.open| && s.open[i].1 !in s.visited
    requires s' == Search(s.visited + {s.open[i].1}, s.cost, s.parents, Without(s.open, i))
    requires order' == order + [s.open[i].1] && rank' == rank[s.open[i].1 := |order|]
    ensures InU(U, start, s') && Ranked(s'.visited, order', rank') && Linked(g, c, start, s', rank')
    ensures Reached(start, s') && Pending(start, s') && start in s'.visited
    ensures goal(start) ==> s.open[i].1 == start
    ensures forall x :: x in s.visited ==> !goal(x)
    ensures forall a, b :: a in s.visited && Edge(g, c, a, b) ==> b in s'.visited || b in s'.cost
  {
    VisitLinks(g, c, goal, start, U, s, order, rank, i, s', order', rank');
    VisitPending(g, c, goal, start, U, s, order, rank, i, s');
  }

  /** A goal expanded: the main loop ends with path == [cur]. */
  lemma VisitGoal<T(!new)>(g: T -> set<T>, c: (T, T) -> int, goal: T -> bool, start: T, U: set<T>,
                     s: Search<T>, order: seq<T>, rank: map<T, nat>, i: nat,
                     s': Search<T>, order': seq<T>, rank': map<T, nat>)
    requires Inv(g, c, goal, start, U, s, order, rank, []) && i < |s.open| && s.open[i].1 !in s.visited
    requires s' == Search(s.visited + {s.open[i].1}, s.cost, s.parents, Without(s.open, i))
    requires order' == order + [s.open[i].1] && rank' == rank[s.open[i].1 := |order|]
    requires goal(s.open[i].1)
    ensures Inv(g, c, goal, start, U, s', order', rank', [s.open[i].1])
  {
    VisitKeeps(g, c, goal, start, U, s, order, rank, i, s', order', rank');
  }

  /** A non-goal expanded: the loop over its children starts with all of
      them remaining. */
  lemma VisitExpand<T(!new)>(g: T -> set<T>, c: (T, T) -> int, goal: T -> bool, start: T, U: set<T>,
                       s: Search<T>, order: seq<T>, rank: map<T, nat>, i: nat,
                       s': Search<T>, order': seq<T>, rank': map<T, nat>)
    requires Inv(g, c, goal, start, U, s, order, rank, []) && i < |s.open| && s.open[i].1 !in s.visited
    requires s' == Search(s.visited + {s.open[i].1}, s.cost, s.parents, Without(s.open, i))
    requires order' == order + [s.open[i].1] && rank' == rank[s.open[i].1 := |order|]
    requires !goal(s.open[i].1)
    ensures ExpInv(g, c, goal, start, U, s', order', rank', s.open[i].1, g(s.open[i].1))
  {
    VisitKeeps(g, c, goal, start, U, s, order, rank, i, s', order', rank');
  }

  /** Queuing one more entry adds its node to the queued nodes. */
  lemma NodesPush<T(!new)>(open: seq<(int, T)>, e: (int, T))
    ensures Nodes(open + [e]) == Nodes(open) + {e.1}
  {
    var r := open + [e];
    assert r[|open|] == e;
    assert forall j :: 0 <= j < |open| ==> r[j] == open[j];
  }

  /** A skipped child (already expanded, or behind a negative edge) needs
      nothing more. */
  lemma RelaxSkips<T(!new)>(g: T -> set<T>, c: (T, T) -> int, goal: T -> bool, start: T, U: set<T>,
                            s: Search<T>, order: seq<T>, rank: map<T, nat>, cur: T, remaining: set<T>, child: T)
    requires ExpInv(g, c, goal, start, U, s, order, rank, cur, remaining) && child in remaining
    requires child in s.visited || c(cur, child) < 0
    ensures ExpInv(g, c, goal, start, U, s, order, rank, cur, remaining - {child})
  {
  }

  /** A child whose recorded cost is no worse keeps its parent and entry;
      only cur gains a cost record. */
  lemma RelaxRetains<T(!new)>(g: T -> set<T>, c: (T, T) -> int, goal: T -> bool, start: T, U: set<T>,
                              s: Search<T>, order: seq<T>, rank: map<T, nat>, cur: T, remaining: set<T>, child: T,
                              s': Search<T>)
    requires ExpInv(g, c, goal, start, U, s, order, rank, cur, remaining) && child in remaining
    requires child in s.cost && s' == s.(cost := s.cost[cur := GCost(s.cost, cur)])
    ensures ExpInv(g, c, goal, start, U, s', order, rank, cur, remaining - {child})
  {
  }

  /** A child reached more cheaply through cur gets cur as its parent, the
      new cost and a fresh queue entry. */
  lemma RelaxReplaces<T(!new)>(g: T -> set<T>, c: (T, T) -> int, goal: T -> bool, start: T, U: set<T>,
                               s: Search<T>, order: seq<T>, rank: map<T, nat>, cur: T, remaining: set<T>, child: T,
                               gc: int, f: int, s': Search<T>)
    requires Closed(g, U) && ExpInv(g, c, goal, start, U, s, order, rank, cur, remaining) && child in remaining
    requires child !in s.visited && c(cur, child) >= 0
    requires s' == Search(s.visited, s.cost[cur := GCost(s.cost, cur)][child := gc], s.parents[child := cur],
                          s.open + [(f, child)])
    ensures ExpInv(g, c, goal, start, U, s', order, rank, cur, remaining - {child})
  {
    NodesPush(s.open, (f, child));
    assert child != start && child in U;
    assert s'.open[|s.open|].1 == child;
  }

  /** Handling one child keeps the invariant of the children loop. */
  lemma RelaxKeeps<T(!new)>(g: T -> set<T>, c: (T, T) -> int, h: T -> int, goal: T -> bool, start: T, U: set<T>,
                      s: Search<T>, order: seq<T>, rank: map<T, nat>, cur: T, remaining: set<T>, child: T,
                      s': Search<T>)
    requires Closed(g, U) && ExpInv(g, c, goal, start, U, s, order, rank, cur, remaining) && child in remaining
    requires s'.visited == s.visited
    requires child in s.visited || c(cur, child) < 0 ==> s' == s
    requires child !in s.visited && c(cur, child) >= 0 ==>
      var gc := GCost(s.cost, cur) + c(cur, child);
      var cost1 := s.cost[cur := GCost(s.cost, cur)];
      if child in cost1 && cost1[child] <= gc then s' == s.(cost := cost1)
      else s' == Search(s.visited, cost1[child := gc], s.parents[child := cur], s.open + [(gc + h(child), child)])
    ensures ExpInv(g, c, goal, start, U, s', order, rank, cur, remaining - {child})
  {
    if child in s.visited || c(cur, child) < 0 {
      RelaxSkips(g, c, goal, start, U, s, order, rank, cur, remaining, child);
    } else {
      var gc := GCost(s.cost, cur) + c(cur, child);
      var cost1 := s.cost[cur := GCost(s.cost, cur)];
      if child in cost1 && cost1[child] <= gc {
        RelaxRetains(g, c, goal, start, U, s, order, rank, cur, remaining, child, s');
      } else {
        RelaxReplaces(g, c, goal, start, U, s, order, rank, cur, remaining, child, gc, gc + h(child), s');
      }
    }
  }

  /** The children loop done: the main loop's invariant holds again. */
  lemma ExpandDone<T(!new)>(g: T -> set<T>, c: (T, T) -> int, goal: T -> bool, start: T, U: set<T>,
                      s: Search<T>, order: seq<T>, rank: map<T, nat>, cur: T)
    requires ExpInv(g, c, goal, start, U, s, order, rank, cur, {})
    ensures Inv(g, c, goal, start, U, s, order, rank, [])
  {
  }

  /** One pass of the loop over the children of cur (AStar.h lines 67-95):
      a child already expanded, or reached by a negative edge, is skipped;
      otherwise its cost through cur is compared with the cost recorded for
      it, and only a strictly smaller one replaces the record, sets cur as
      its parent and queues it with f = g + h. cost_here[cur] reads through
      operator[], which records 0 for cur when it has no cost yet. */
  method Relax<T(!new)>(c: (T, T) -> int, h: T -> int, cur: T, child: T, s: Search<T>) returns (s': Search<T>)
    ensures s'.visited == s.visited
    ensures child in s.visited || c(cur, child) < 0 ==> s' == s
    ensures child !in s.visited && c(cur, child) >= 0 ==>
      var gc := GCost(s.cost, cur) + c(cur, child);
      var cost1 := s.cost[cur := GCost(s.cost, cur)];
      if child in cost1 && cost1[child] <= gc then s' == s.(cost := cost1)
      else s' == Search(s.visited, cost1[child := gc], s.parents[child := cur], s.open + [(gc + h(child), child)])
  {
    s' := s;
    if child in s.visited {
      return;
    }
    var edgeCost := c(cur, child);
    if edgeCost < 0 {
      return;
    }
    var cost := s.cost;
    if cur !in cost {
      cost := cost[cur := 0];
    }
    var thisG := cost[cur] + edgeCost;
    var addThisAsParent := true;
    if child in cost {
      var costPrev := cost[child];
      if costPrev <= thisG {
        addThisAsParent := false;
      }
    }
    if addThisAsParent {
      var thisF := thisG + h(child);
      s' := Search(s.visited, cost[child := thisG], s.parents[child := cur], s.open + [(thisF, child)]);
    } else {
      s' := s.(cost := cost);
    }
  }

  /** The loop over the children of an expanded node, in the order the
      set yields them. */
  method Expand<T(!new)>(g: T -> set<T>, c: (T, T) -> int, h: T -> int, ghost goal: T -> bool, ghost start: T,
                   ghost U: set<T>, cur: T, children: set<T>, s: Search<T>, ghost order: seq<T>,
                   ghost rank: map<T, nat>)
    returns (s': Search<T>)
    requires Closed(g, U) && children == g(cur) && ExpInv(g, c, goal, start, U, s, order, rank, cur, children)
    ensures s'.visited == s.visited && Inv(g, c, goal, start, U, s', order, rank, [])
  {
    s' := s;
    var remaining := children;
    while remaining != {}
      invariant s'.visited == s.visited && ExpInv(g, c, goal, start, U, s', order, rank, cur, remaining)
      decreases |remaining|
    {
      var child :| child in remaining;
      var next := Relax(c, h, cur, child, s');
      RelaxKeeps(g, c, h, goal, start, U, s', order, rank, cur, remaining, child, next);
      s', remaining := next, remaining - {child};
    }
    ExpandDone(g, c, goal, start, U, s', order, rank, cur);
  }

  /** Dropping a fresh node from the unexpanded part of U shrinks it. */
  lemma FewerLeft<T(!new)>(U: set<T>, visited: set<T>, x: T)
    requires x in U && x !in visited
    ensures |U - (visited + {x})| < |U - visited|
  {
    assert U - (visited + {x}) == (U - visited) - {x};
  }

  /** One pass of the do/while loop of solve (AStar.h lines 49-96): pop
      the entry of least f-cost; skip it when its node is already expanded;
      otherwise expand the node, stopping with path == [node] when it is a
      goal and handling its children when it is not. Either the expanded set
      grows or it stays and the queue shrinks. */
  method Pass<T(!new)>(g: T -> set<T>, c: (T, T) -> int, h: T -> int, goal: T -> bool, ghost start: T,
                       ghost U: set<T>, s: Search<T>, ghost expanded: seq<T>, ghost rank: map<T, nat>)
    returns (s': Search<T>, ghost expanded': seq<T>, ghost rank': map<T, nat>, path: seq<T>)
    requires Closed(g, U) && Inv(g, c, goal, start, U, s, expanded, rank, []) && s.open != []
    ensures Inv(g, c, goal, start, U, s', expanded', rank', path)
    ensures |U - s'.visited| < |U - s.visited| || (s'.visited == s.visited && |s'.open| < |s.open|)
  {
    path := [];
    var top := PopMin(s.open);
    var current := s.open[top].1;
    if current in s.visited {
      s', expanded', rank' := s.(open := Without(s.open, top)), expanded, rank;
      SkipKeeps(g, c, goal, start, U, s, expanded, rank, top, s');
      return;
    }
    s' := Search(s.visited + {current}, s.cost, s.parents, Without(s.open, top));
    expanded', rank' := expanded + [current], rank[current := |expanded|];
    FewerLeft(U, s.visited, current);
    var children := g(current);
    if goal(current) {
      VisitGoal(g, c, goal, start, U, s, expanded, rank, top, s', expanded', rank');
      path := [current];
      return;
    }
    VisitExpand(g, c, goal, start, U, s, expanded, rank, top, s', expanded', rank');
    s' := Expand(g, c, h, goal, start, U, current, children, s', expanded', rank');
  }

  /** AStar<T>::solve. A found path starts at start, ends at a goal and
      follows edges of non-negative cost; an empty result means no such
      walk from start reaches a goal. When start is itself a goal the path
      is [start]. The ghost result lists the expanded nodes, each once. */
  method Solve<T(!new)>(g: T -> set<T>, c: (T, T) -> int, h: T -> int, goal: T -> bool, start: T, ghost U: set<T>)
    returns (path: seq<T>, ghost expanded: seq<T>)
    requires start in U && Closed(g, U)
    ensures path != [] ==> path[0] == start && goal(path[|path| - 1]) && IsWalk(g, c, path)
    ensures path == [] ==> forall w :: IsWalk(g, c, w) && w != [] && w[0] == start ==> !goal(w[|w| - 1])
    ensures goal(start) ==> path == [start]
    ensures forall i, j :: 0 <= i < j < |expanded| ==> expanded[i] != expanded[j]
  {
    var s := Search({}, map[], map[], [(0, start)]);
    ghost var rank: map<T, nat> := map[];
    expanded := [];
    path := [];
    InitInv(g, c, goal, start, U);
    while path == [] && s.open != []
      invariant Inv(g, c, goal, start, U, s, expanded, rank, path)
      decreases |U - s.visited|, |s.open|
    {
      s, expanded, rank, path := Pass(g, c, h, goal, start, U, s, expanded, rank);
    }
    if path == [] {
      NoPath(g, c, goal, start, s);
      return;
    }
    path := Reconstruct(g, c, start, s, expanded, rank, path[0]);
  }

  /** The search starts with start queued at f-cost 0 and nothing else. */
  lemma InitInv<T(!new)>(g: T -> set<T>, c: (T, T) -> int, goal: T -> bool, start: T, U: set<T>)
    requires start in U
    ensures Inv(g, c, goal, start, U, Search({}, map[], map[], [(0, start)]), [], map[], [])
  {
    var open := [(0, start)];
    assert open[0].1 == start;
  }

  /** The search ran dry: the expanded set contains start, is closed under
      followed edges and holds no goal, so no walk from start reaches one. */
  lemma NoPath<T(!new)>(g: T -> set<T>, c: (T, T) -> int, goal: T -> bool, start: T, s: Search<T>)
    requires s.open == [] && Pending(start, s) && Closure(g, c, s) && forall x :: x in s.visited ==> !goal(x)
    ensures forall w :: IsWalk(g, c, w) && w != [] && w[0] == start ==> !goal(w[|w| - 1])
  {
    forall w | IsWalk(g, c, w) && w != [] && w[0] == start
      ensures !goal(w[|w| - 1])
    {
      WalkStays(g, c, s.visited, w, |w| - 1);
    }
  }

  /** A walk that starts in a set closed under followed edges stays in it. */
  lemma {:induction false} WalkStays<T(!new)>(g: T -> set<T>, c: (T, T) -> int, S: set<T>, w: seq<T>, k: nat)
    requires forall a, b :: a in S && Edge(g, c, a, b) ==> b in S
    requires IsWalk(g, c, w) && k < |w| && w[0] in S
    ensures w[k] in S
  {
    if k > 0 {
      WalkStays(g, c, S, w, k - 1);
      assert Edge(g, c, w[k - 1], w[k]);
    }
  }

  /** Path reconstruction (AStar.h lines 100-108): follow parent links from
      the goal, appending each parent, until a node without one, then
      reverse. Parents are expanded before their children, so the chain is
      finite, and the node without a parent is start. */
  method Reconstruct<T(!new)>(ghost g: T -> set<T>, ghost c: (T, T) -> int, ghost start: T, s: Search<T>,
                        ghost order: seq<T>, ghost rank: map<T, nat>, goalNode: T)
    returns (path: seq<T>)
    requires Ranked(s.visited, order, rank) && Linked(g, c, start, s, rank) && Reached(start, s)
    requires goalNode in s.visited
    ensures path != [] && path[0] == start && path[|path| - 1] == goalNode && IsWalk(g, c, path)
    ensures goalNode == start ==> path == [start]
  {
    var back := [goalNode];
    var curr := goalNode;
    while curr in s.parents
      invariant curr in s.visited && |back| >= 1 && back[0] == goalNode && back[|back| - 1] == curr
      invariant forall i :: 0 <= i < |back| - 1 ==> back[i] in s.parents && s.parents[back[i]] == back[i + 1]
      decreases rank[curr]
    {
      curr := s.parents[curr];
      back := back + [curr];
    }
    path := Reverse(back);
    forall i | 0 <= i < |path| - 1
      ensures Edge(g, c, path[i], path[i + 1])
    {
      var k := |back| - 2 - i;
      assert path[i] == back[k + 1] == s.parents[back[k]] && path[i + 1] == back[k];
    }
  }
}
