/**
 * Breadth-first search on the 4-connected maze, as the pursuer of
 * src/enemy.js runs it: what a walkable path is, what the shortest
 * distance is, the invariant the search keeps, and the lemmas that turn
 * that invariant into the search's promises.
 */
module Paths {
  import opened Geometry
  import opened Maze

  /** The four expansion directions, in the search's fixed order: up, down, left, right. */
  const Dirs: seq<(int, int)> := [(-1, 0), (1, 0), (0, -1), (0, 1)]

  function Neighbor(p: Pos, i: nat): Pos
    requires i < 4
  {
    Pos(p.r + Dirs[i].0, p.c + Dirs[i].1)
  }

  /** The four expansion directions reach exactly the 4-neighbours of a cell. */
  lemma NeighborsAreAdjacent(p: Pos, w: Pos)
    ensures Adjacent(p, w) <==> exists i :: 0 <= i < 4 && w == Neighbor(p, i)
  {
    if Adjacent(p, w) {
      if w.r == p.r - 1 { assert w == Neighbor(p, 0); }
      else if w.r == p.r + 1 { assert w == Neighbor(p, 1); }
      else if w.c == p.c - 1 { assert w == Neighbor(p, 2); }
      else { assert w == Neighbor(p, 3); }
    }
  }

  /**
   * A walk from `s` to `t`: consecutive cells share an edge and every cell
   * after the first is walkable (the walker's own cell is not tested).
   */
  ghost predicate IsPath(g: Grid, p: seq<Pos>, s: Pos, t: Pos)
  {
    && |p| >= 1 && p[0] == s && p[|p| - 1] == t
    && forall i :: 1 <= i < |p| ==> Adjacent(p[i - 1], p[i]) && IsWalkable(g, p[i].r, p[i].c)
  }

  ghost predicate Reachable(g: Grid, s: Pos, t: Pos)
  {
    exists p :: IsPath(g, p, s, t)
  }

  /** `k` is the length, in steps, of a shortest walk from `s` to `t`. */
  ghost predicate IsDistance(g: Grid, s: Pos, t: Pos, k: nat)
  {
    && (exists p :: IsPath(g, p, s, t) && |p| == k + 1)
    && (forall p :: IsPath(g, p, s, t) ==> k + 1 <= |p|)
  }

  /**
   * `n` is a correct next cell for a body at `s` heading to `t`: the body's
   * own cell when it is already there, otherwise a walkable neighbour that
   * is one step closer to `t` along a shortest walk.
   */
  ghost predicate IsNextStep(g: Grid, s: Pos, t: Pos, n: Pos)
  {
    if s == t then n == s
    else Adjacent(s, n) && IsWalkable(g, n.r, n.c) && exists k: nat :: IsDistance(g, s, t, k + 1) && IsDistance(g, n, t, k)
  }

  /** The shortest distance is unique. */
  lemma DistanceUnique(g: Grid, s: Pos, t: Pos, k1: nat, k2: nat)
    requires IsDistance(g, s, t, k1) && IsDistance(g, s, t, k2)
    ensures k1 == k2
  {
    var p1 :| IsPath(g, p1, s, t) && |p1| == k1 + 1;
    var p2 :| IsPath(g, p2, s, t) && |p2| == k2 + 1;
  }

  /** A next step moves at most one cell, and the target stays reachable from it. */
  lemma NextStepIsLocal(g: Grid, s: Pos, t: Pos, n: Pos)
    requires IsNextStep(g, s, t, n)
    ensures Manhattan(s, n) <= 1
    ensures Reachable(g, n, t)
  {
    if s == t {
      assert IsPath(g, [s], s, t);
    } else {
      var k: nat :| IsDistance(g, s, t, k + 1) && IsDistance(g, n, t, k);
      var p :| IsPath(g, p, n, t) && |p| == k + 1;
    }
  }

  /** A wall or out-of-bounds target other than the start itself cannot be reached. */
  lemma UnwalkableTargetUnreachable(g: Grid, s: Pos, t: Pos)
    requires s != t && !IsWalkable(g, t.r, t.c)
    ensures !Reachable(g, s, t)
  {
  }

  /** Stepping from `s` into a walkable neighbour `n` extends any walk that starts at `n`. */
  lemma PrependStep(g: Grid, s: Pos, n: Pos, p: seq<Pos>, t: Pos)
    requires Adjacent(s, n) && IsWalkable(g, n.r, n.c)
    requires IsPath(g, p, n, t)
    ensures IsPath(g, [s] + p, s, t)
  {
    var p' := [s] + p;
    forall i | 1 <= i < |p'|
      ensures Adjacent(p'[i - 1], p'[i]) && IsWalkable(g, p'[i].r, p'[i].c)
    {
      if i > 1 {
        assert p'[i - 1] == p[i - 2] && p'[i] == p[i - 1];
      }
    }
  }

  // ---- The search state ----

  /** The cells of the `R x C` parent matrix. */
  ghost function Box(g: Grid): set<Pos>
  {
    set r, c | 0 <= r < |g| && 0 <= c < Width(g) :: Pos(r, c)
  }

  /** Every discovered cell other than the start is walkable, so it lies in the matrix. */
  lemma DiscoveredInBox(g: Grid, s: Pos, parent: map<Pos, Pos>, dist: map<Pos, nat>)
    requires TreeInv(g, s, parent, dist)
    ensures parent.Keys <= Box(g) + {s}
  {
    forall v | v in parent && v != s ensures v in Box(g) {
      assert IsWalkable(g, v.r, v.c);
    }
  }

  /** Every discovered cell other than the start hangs off a discovered neighbour one step nearer. */
  ghost predicate TreeInv(g: Grid, s: Pos, parent: map<Pos, Pos>, dist: map<Pos, nat>)
  {
    forall v :: v in parent && v != s ==>
      && parent[v] in parent && parent[v] in dist && v in dist
      && Adjacent(parent[v], v) && IsWalkable(g, v.r, v.c)
      && dist[v] == dist[parent[v]] + 1
  }

  /** The queue holds discovered cells in non-decreasing distance, spanning at most two layers. */
  ghost predicate QueueInv(q: seq<Pos>, dist: map<Pos, nat>)
  {
    && (forall i :: 0 <= i < |q| ==> q[i] in dist)
    && (forall i, j :: 0 <= i <= j < |q| ==> dist[q[i]] <= dist[q[j]])
    && (forall i :: 0 <= i < |q| ==> dist[q[i]] <= dist[q[0]] + 1)
  }

  /**
   * A discovered cell no longer queued has been expanded: it is no farther
   * than the queue front, and each walkable neighbour is discovered at most
   * one step farther.
   */
  ghost predicate Settled(g: Grid, q: seq<Pos>, parent: map<Pos, Pos>, dist: map<Pos, nat>, v: Pos)
    requires v in dist
    requires q != [] ==> q[0] in dist
  {
    && (q != [] ==> dist[v] <= dist[q[0]])
    && forall w :: Adjacent(v, w) && IsWalkable(g, w.r, w.c) ==> w in parent && w in dist && dist[w] <= dist[v] + 1
  }

  /** The invariant of the search loop at the top of each iteration. */
  ghost predicate BfsInv(g: Grid, s: Pos, t: Pos, q: seq<Pos>, parent: map<Pos, Pos>, dist: map<Pos, nat>)
  {
    && parent.Keys == dist.Keys
    && s in parent && parent[s] == s && dist[s] == 0
    && TreeInv(g, s, parent, dist)
    && (forall i :: 0 <= i < |q| ==> q[i] in parent)
    && QueueInv(q, dist)
    && (forall v :: v in parent && v !in q ==> Settled(g, q, parent, dist, v))
    && (t in parent ==> t in q)
  }

  /** Every discovered cell is at most one step farther than the queue front. */
  lemma DiscoveredNearFront(g: Grid, s: Pos, t: Pos, q: seq<Pos>, parent: map<Pos, Pos>, dist: map<Pos, nat>, v: Pos)
    requires BfsInv(g, s, t, q, parent, dist) && q != [] && v in parent
    ensures dist[v] <= dist[q[0]] + 1
  {
    if v in q {
      var i :| 0 <= i < |q| && q[i] == v;
    } else {
      assert Settled(g, q, parent, dist, v);
    }
  }

  /**
   * While cells are still queued, no walk from the start is shorter than the
   * distance recorded for its end, and a walk ending at an undiscovered cell
   * is longer than the queue front's distance plus one.
   */
  lemma {:induction false} FrontierBound(g: Grid, s: Pos, t: Pos, q: seq<Pos>, parent: map<Pos, Pos>, dist: map<Pos, nat>, p: seq<Pos>, v: Pos)
    requires BfsInv(g, s, t, q, parent, dist) && q != []
    requires IsPath(g, p, s, v)
    ensures v in parent ==> dist[v] + 1 <= |p|
    ensures v !in parent ==> dist[q[0]] + 2 <= |p|
    decreases |p|
  {
    if |p| > 1 {
      var u := p[|p| - 2];
      var pre := p[..|p| - 1];
      assert IsPath(g, pre, s, u) by {
        forall i | 1 <= i < |pre|
          ensures Adjacent(pre[i - 1], pre[i]) && IsWalkable(g, pre[i].r, pre[i].c)
        {
          assert pre[i - 1] == p[i - 1] && pre[i] == p[i];
        }
      }
      FrontierBound(g, s, t, q, parent, dist, pre, u);
      assert Adjacent(u, v) && IsWalkable(g, v.r, v.c) by {
        assert p[|p| - 1] == v;
      }
      if v in parent {
        DiscoveredNearFront(g, s, t, q, parent, dist, v);
      }
      if u in parent {
        if u in q {
          var i :| 0 <= i < |q| && q[i] == u;
          assert dist[q[0]] <= dist[u];
        } else {
          assert Settled(g, q, parent, dist, u);
        }
      }
    }
  }

  /** Once the queue is empty, every cell a walk from the start can reach has been discovered. */
  lemma {:induction false} ExhaustedCoversReach(g: Grid, s: Pos, t: Pos, parent: map<Pos, Pos>, dist: map<Pos, nat>, p: seq<Pos>, v: Pos)
    requires BfsInv(g, s, t, [], parent, dist)
    requires IsPath(g, p, s, v)
    ensures v in parent
    decreases |p|
  {
    if |p| > 1 {
      var u := p[|p| - 2];
      var pre := p[..|p| - 1];
      assert IsPath(g, pre, s, u) by {
        forall i | 1 <= i < |pre|
          ensures Adjacent(pre[i - 1], pre[i]) && IsWalkable(g, pre[i].r, pre[i].c)
        {
          assert pre[i - 1] == p[i - 1] && pre[i] == p[i];
        }
      }
      ExhaustedCoversReach(g, s, t, parent, dist, pre, u);
      assert Adjacent(u, v) && IsWalkable(g, v.r, v.c) by {
        assert p[|p| - 1] == v;
      }
      assert Settled(g, [], parent, dist, u);
    }
  }

  /** A search whose queue ran dry without dequeuing the target proves the target unreachable. */
  lemma ExhaustedUnreachable(g: Grid, s: Pos, t: Pos, parent: map<Pos, Pos>, dist: map<Pos, nat>)
    requires BfsInv(g, s, t, [], parent, dist)
    ensures !Reachable(g, s, t)
  {
    if Reachable(g, s, t) {
      var p :| IsPath(g, p, s, t);
      ExhaustedCoversReach(g, s, t, parent, dist, p, t);
      assert false;
    }
  }

  /** Discovering a cell of the matrix shrinks the set of undiscovered cells. */
  lemma DiscoveryShrinks(box: set<Pos>, s: Pos, k0: set<Pos>, k1: set<Pos>)
    requires s in k0 && k0 < k1 && k1 <= box + {s}
    ensures |box - k1| < |box - k0|
  {
    var n :| n in k1 && n !in k0;
    var a, b := box - k1, box - k0;
    assert n in b && n !in a;
    assert b == a + (b - a) && a * (b - a) == {};
    assert b - a == {n} + (b - a - {n});
  }

  /** Expansion so far only adds cells one layer past `cur`, each hung off a discovered neighbour. */
  ghost predicate ExpandedMaps(g: Grid, s: Pos, d: nat, parent0: map<Pos, Pos>, dist0: map<Pos, nat>,
                               parent: map<Pos, Pos>, dist: map<Pos, nat>)
  {
    && parent.Keys == dist.Keys && parent0.Keys <= parent.Keys
    && s in parent && parent[s] == s && dist[s] == 0
    && TreeInv(g, s, parent, dist)
    && (forall v :: v in parent0 ==> v in dist0 && parent[v] == parent0[v] && dist[v] == dist0[v])
    && (forall v :: v in parent ==> dist[v] <= d + 1)
  }

  /** The queue is the old tail followed by exactly the newly discovered cells, all one layer past `cur`. */
  ghost predicate ExpandedQueue(d: nat, q0: seq<Pos>, parent0: map<Pos, Pos>, q: seq<Pos>, parent: map<Pos, Pos>, dist: map<Pos, nat>)
  {
    && |q| >= |q0| && (forall j :: 0 <= j < |q0| ==> q[j] == q0[j])
    && (forall j :: |q0| <= j < |q| ==> q[j] in parent && q[j] in dist && q[j] !in parent0 && dist[q[j]] == d + 1)
    && (forall v :: v in parent && v !in parent0 ==> v in q)
    && (parent0.Keys < parent.Keys || (parent == parent0 && q == q0))
  }

  /** The first `i` directions of `cur` have been expanded. */
  ghost predicate ExpandedDirs(g: Grid, cur: Pos, parent: map<Pos, Pos>, i: nat)
    requires i <= 4
  {
    forall j :: 0 <= j < i ==> IsWalkable(g, Neighbor(cur, j).r, Neighbor(cur, j).c) ==> Neighbor(cur, j) in parent
  }

  /** The state after the first `i` directions of `cur` have been expanded. */
  ghost predicate Expanded(g: Grid, s: Pos, cur: Pos, d: nat, q0: seq<Pos>, parent0: map<Pos, Pos>, dist0: map<Pos, nat>,
                           q: seq<Pos>, parent: map<Pos, Pos>, dist: map<Pos, nat>, i: nat)
    requires i <= 4
  {
    && ExpandedMaps(g, s, d, parent0, dist0, parent, dist)
    && ExpandedQueue(d, q0, parent0, q, parent, dist)
    && ExpandedDirs(g, cur, parent, i)
  }

  /** Before expansion, every discovered cell is within one layer of `cur`. */
  lemma FrontIsNearest(g: Grid, s: Pos, t: Pos, queued: seq<Pos>, parent: map<Pos, Pos>, dist: map<Pos, nat>)
    requires BfsInv(g, s, t, queued, parent, dist) && queued != []
    ensures forall v :: v in parent ==> dist[v] <= dist[queued[0]] + 1
  {
    forall v | v in parent ensures dist[v] <= dist[queued[0]] + 1 {
      DiscoveredNearFront(g, s, t, queued, parent, dist, v);
    }
  }

  /** Skipping a neighbour that is a wall, outside, or already discovered keeps the expansion state. */
  lemma ExpandSkip(g: Grid, s: Pos, cur: Pos, d: nat, q0: seq<Pos>, parent0: map<Pos, Pos>, dist0: map<Pos, nat>,
                   q: seq<Pos>, parent: map<Pos, Pos>, dist: map<Pos, nat>, i: nat)
    requires i < 4 && Expanded(g, s, cur, d, q0, parent0, dist0, q, parent, dist, i)
    requires !IsWalkable(g, Neighbor(cur, i).r, Neighbor(cur, i).c) || Neighbor(cur, i) in parent
    ensures Expanded(g, s, cur, d, q0, parent0, dist0, q, parent, dist, i + 1)
  {
  }

  /** Hanging an undiscovered walkable neighbour of a discovered cell off that cell keeps the tree invariant. */
  lemma TreeInvExtend(g: Grid, s: Pos, parent: map<Pos, Pos>, dist: map<Pos, nat>, cur: Pos, n: Pos)
    requires TreeInv(g, s, parent, dist) && parent.Keys == dist.Keys && s in parent
    requires cur in parent && Adjacent(cur, n) && IsWalkable(g, n.r, n.c) && n !in parent
    ensures TreeInv(g, s, parent[n := cur], dist[n := dist[cur] + 1])
  {
    var parent', dist' := parent[n := cur], dist[n := dist[cur] + 1];
    forall v | v in parent' && v != s
      ensures parent'[v] in parent' && parent'[v] in dist' && v in dist'
      ensures Adjacent(parent'[v], v) && IsWalkable(g, v.r, v.c)
      ensures dist'[v] == dist'[parent'[v]] + 1
    {
      if v != n {
        assert parent'[v] == parent[v] && parent[v] != n;
      }
    }
  }

  lemma ExpandAddMaps(g: Grid, s: Pos, cur: Pos, d: nat, parent0: map<Pos, Pos>, dist0: map<Pos, nat>,
                      parent: map<Pos, Pos>, dist: map<Pos, nat>, n: Pos)
    requires ExpandedMaps(g, s, d, parent0, dist0, parent, dist)
    requires cur in parent && dist[cur] == d && Adjacent(cur, n)
    requires IsWalkable(g, n.r, n.c) && n !in parent
    ensures ExpandedMaps(g, s, d, parent0, dist0, parent[n := cur], dist[n := d + 1])
  {
    TreeInvExtend(g, s, parent, dist, cur, n);
  }

  lemma ExpandAddQueue(d: nat, q0: seq<Pos>, parent0: map<Pos, Pos>, q: seq<Pos>, parent: map<Pos, Pos>, dist: map<Pos, nat>,
                       cur: Pos, n: Pos)
    requires ExpandedQueue(d, q0, parent0, q, parent, dist)
    requires parent0.Keys <= parent.Keys && n !in parent
    ensures ExpandedQueue(d, q0, parent0, q + [n], parent[n := cur], dist[n := d + 1])
  {
    assert n !in parent0;
    assert n in parent[n := cur].Keys;
  }

  /** Discovering a new neighbour, one layer past `cur`, keeps the expansion state. */
  lemma ExpandAdd(g: Grid, s: Pos, cur: Pos, d: nat, q0: seq<Pos>, parent0: map<Pos, Pos>, dist0: map<Pos, nat>,
                  q: seq<Pos>, parent: map<Pos, Pos>, dist: map<Pos, nat>, i: nat)
    requires i < 4 && Expanded(g, s, cur, d, q0, parent0, dist0, q, parent, dist, i)
    requires cur in parent0 && dist0[cur] == d
    requires IsWalkable(g, Neighbor(cur, i).r, Neighbor(cur, i).c) && Neighbor(cur, i) !in parent
    ensures Expanded(g, s, cur, d, q0, parent0, dist0, q + [Neighbor(cur, i)],
                     parent[Neighbor(cur, i) := cur], dist[Neighbor(cur, i) := d + 1], i + 1)
  {
    var n := Neighbor(cur, i);
    NeighborsAreAdjacent(cur, n);
    ExpandAddMaps(g, s, cur, d, parent0, dist0, parent, dist, n);
    ExpandAddQueue(d, q0, parent0, q, parent, dist, cur, n);
  }

  /** After expansion the queue is the old tail followed by cells one layer past `cur`. */
  lemma ExpandedLayers(g: Grid, s: Pos, t: Pos, cur: Pos, queued: seq<Pos>, q0: seq<Pos>,
                      parent0: map<Pos, Pos>, dist0: map<Pos, nat>,
                      q: seq<Pos>, parent: map<Pos, Pos>, dist: map<Pos, nat>)
    requires BfsInv(g, s, t, queued, parent0, dist0)
    requires queued != [] && queued[0] == cur && q0 == queued[1..]
    requires Expanded(g, s, cur, dist0[cur], q0, parent0, dist0, q, parent, dist, 4)
    ensures forall j :: 0 <= j < |q| ==> q[j] in parent && dist0[cur] <= dist[q[j]] <= dist0[cur] + 1
    ensures QueueInv(q, dist)
  {
    var d := dist0[cur];
    forall j | 0 <= j < |q| ensures q[j] in parent && d <= dist[q[j]] <= d + 1 {
      if j < |q0| {
        assert q[j] == q0[j] == queued[j + 1];
        assert dist0[queued[0]] <= dist0[queued[j + 1]];
      }
    }
    forall a, b | 0 <= a <= b < |q| ensures dist[q[a]] <= dist[q[b]] {
      if b < |q0| {
        assert q[a] == q0[a] == queued[a + 1];
        assert q[b] == q0[b] == queued[b + 1];
        assert dist0[queued[a + 1]] <= dist0[queued[b + 1]];
      }
    }
  }

  /** After expansion every discovered cell that is not queued, `cur` included, is settled. */
  lemma ExpandedSettled(g: Grid, s: Pos, t: Pos, cur: Pos, queued: seq<Pos>, q0: seq<Pos>,
                        parent0: map<Pos, Pos>, dist0: map<Pos, nat>,
                        q: seq<Pos>, parent: map<Pos, Pos>, dist: map<Pos, nat>, v: Pos)
    requires BfsInv(g, s, t, queued, parent0, dist0)
    requires queued != [] && queued[0] == cur && q0 == queued[1..]
    requires Expanded(g, s, cur, dist0[cur], q0, parent0, dist0, q, parent, dist, 4)
    requires forall j :: 0 <= j < |q| ==> q[j] in parent && dist0[cur] <= dist[q[j]] <= dist0[cur] + 1
    requires v in parent && v !in q
    ensures Settled(g, q, parent, dist, v)
  {
    var d := dist0[cur];
    assert v in parent0;
    if v == cur {
      forall w | Adjacent(v, w) && IsWalkable(g, w.r, w.c)
        ensures w in parent && dist[w] <= dist[v] + 1
      {
        NeighborsAreAdjacent(v, w);
      }
    } else {
      assert v !in queued;
      assert Settled(g, queued, parent0, dist0, v);
    }
  }

  /** The target, never dequeued, stays queued while it is discovered. */
  lemma ExpandedKeepsTarget(g: Grid, s: Pos, t: Pos, cur: Pos, queued: seq<Pos>, q0: seq<Pos>,
                            parent0: map<Pos, Pos>, dist0: map<Pos, nat>,
                            q: seq<Pos>, parent: map<Pos, Pos>, dist: map<Pos, nat>)
    requires BfsInv(g, s, t, queued, parent0, dist0)
    requires queued != [] && queued[0] == cur && q0 == queued[1..] && cur != t
    requires ExpandedQueue(dist0[cur], q0, parent0, q, parent, dist)
    ensures t in parent ==> t in q
  {
    if t in parent && t in parent0 {
      var j :| 0 <= j < |queued| && queued[j] == t;
      assert q[j - 1] == q0[j - 1] == t;
    }
  }

  /** Expanding all four directions of the dequeued cell restores the loop invariant. */
  lemma ExpansionRestoresInv(g: Grid, s: Pos, t: Pos, cur: Pos, queued: seq<Pos>, q0: seq<Pos>,
                             parent0: map<Pos, Pos>, dist0: map<Pos, nat>,
                             q: seq<Pos>, parent: map<Pos, Pos>, dist: map<Pos, nat>)
    requires BfsInv(g, s, t, queued, parent0, dist0)
    requires queued != [] && queued[0] == cur && q0 == queued[1..] && cur != t
    requires Expanded(g, s, cur, dist0[cur], q0, parent0, dist0, q, parent, dist, 4)
    ensures BfsInv(g, s, t, q, parent, dist)
  {
    ExpandedLayers(g, s, t, cur, queued, q0, parent0, dist0, q, parent, dist);
    forall v | v in parent && v !in q
      ensures Settled(g, q, parent, dist, v)
    {
      ExpandedSettled(g, s, t, cur, queued, q0, parent0, dist0, q, parent, dist, v);
    }
    ExpandedKeepsTarget(g, s, t, cur, queued, q0, parent0, dist0, q, parent, dist);
  }

  /**
   * The neighbours of `cur` in the first `i` directions that are walkable
   * and not in `parent0`, in direction order: what one expansion enqueues.
   */
  ghost function FreshNeighbors(g: Grid, cur: Pos, parent0: map<Pos, Pos>, i: nat): seq<Pos>
    requires i <= 4
  {
    if i == 0 then []
    else
      var n := Neighbor(cur, i - 1);
      FreshNeighbors(g, cur, parent0, i - 1) + (if IsWalkable(g, n.r, n.c) && n !in parent0 then [n] else [])
  }

  /** A later direction's neighbour is not among those of the earlier directions. */
  lemma {:induction false} FreshNeighborsBefore(g: Grid, cur: Pos, parent0: map<Pos, Pos>, i: nat, k: nat)
    requires i <= k < 4
    ensures Neighbor(cur, k) !in FreshNeighbors(g, cur, parent0, i)
  {
    if i > 0 {
      FreshNeighborsBefore(g, cur, parent0, i - 1, k);
      assert Neighbor(cur, i - 1) != Neighbor(cur, k);
    }
  }

  /** The fresh neighbours of the first `i` directions are those directions' walkable cells outside `parent0`. */
  lemma {:induction false} FreshNeighborsMembers(g: Grid, cur: Pos, parent0: map<Pos, Pos>, i: nat, v: Pos)
    requires i <= 4
    ensures v in FreshNeighbors(g, cur, parent0, i)
            <==> (exists j :: 0 <= j < i && v == Neighbor(cur, j)) && IsWalkable(g, v.r, v.c) && v !in parent0
  {
    if i > 0 {
      FreshNeighborsMembers(g, cur, parent0, i - 1, v);
    }
  }

  /** One expansion enqueues exactly the walkable 4-neighbours of `cur` that were not yet discovered. */
  lemma FreshNeighborsExactly(g: Grid, cur: Pos, parent0: map<Pos, Pos>, v: Pos)
    ensures v in FreshNeighbors(g, cur, parent0, 4) <==> Adjacent(cur, v) && IsWalkable(g, v.r, v.c) && v !in parent0
  {
    FreshNeighborsMembers(g, cur, parent0, 4, v);
    NeighborsAreAdjacent(cur, v);
  }

  /** After `i` directions: the queue grew by the fresh neighbours, each with parent `cur`, and nothing else was discovered. */
  ghost predicate Enqueued(g: Grid, cur: Pos, q0: seq<Pos>, parent0: map<Pos, Pos>, q: seq<Pos>, parent: map<Pos, Pos>, i: nat)
    requires i <= 4
  {
    && q == q0 + FreshNeighbors(g, cur, parent0, i)
    && (forall v :: v in FreshNeighbors(g, cur, parent0, i) ==> v in parent && parent[v] == cur)
    && (forall v :: v in parent && v !in parent0 ==> v in FreshNeighbors(g, cur, parent0, i))
  }

  /** Discovering a walkable, undiscovered neighbour keeps `Enqueued`. */
  lemma EnqueuedAdd(g: Grid, cur: Pos, q0: seq<Pos>, parent0: map<Pos, Pos>, q: seq<Pos>, parent: map<Pos, Pos>, i: nat)
    requires i < 4 && parent0.Keys <= parent.Keys && Enqueued(g, cur, q0, parent0, q, parent, i)
    requires IsWalkable(g, Neighbor(cur, i).r, Neighbor(cur, i).c) && Neighbor(cur, i) !in parent
    ensures Enqueued(g, cur, q0, parent0, q + [Neighbor(cur, i)], parent[Neighbor(cur, i) := cur], i + 1)
  {
    var n := Neighbor(cur, i);
    FreshNeighborsBefore(g, cur, parent0, i, i);
    assert FreshNeighbors(g, cur, parent0, i + 1) == FreshNeighbors(g, cur, parent0, i) + [n];
  }

  /** Passing over a wall or an already discovered neighbour keeps `Enqueued`. */
  lemma EnqueuedSkip(g: Grid, cur: Pos, q0: seq<Pos>, parent0: map<Pos, Pos>, q: seq<Pos>, parent: map<Pos, Pos>, i: nat)
    requires i < 4 && parent0.Keys <= parent.Keys && Enqueued(g, cur, q0, parent0, q, parent, i)
    requires !(IsWalkable(g, Neighbor(cur, i).r, Neighbor(cur, i).c) && Neighbor(cur, i) !in parent)
    ensures Enqueued(g, cur, q0, parent0, q, parent, i + 1)
  {
    FreshNeighborsBefore(g, cur, parent0, i, i);
    assert FreshNeighbors(g, cur, parent0, i + 1) == FreshNeighbors(g, cur, parent0, i);
  }

  /**
   * The expansion of one dequeued cell `cur`: each walkable, undiscovered
   * neighbour, in the order up, down, left, right, is given `cur` as its
   * parent and appended to the queue.
   */
  method ExpandNeighbors(g: Grid, ghost s: Pos, ghost t: Pos, cur: Pos, ghost queued: seq<Pos>,
                         q0: seq<Pos>, parent0: map<Pos, Pos>, ghost dist0: map<Pos, nat>)
    returns (q: seq<Pos>, parent: map<Pos, Pos>, ghost dist: map<Pos, nat>)
    requires BfsInv(g, s, t, queued, parent0, dist0)
    requires queued != [] && queued[0] == cur && q0 == queued[1..] && cur != t
    ensures BfsInv(g, s, t, q, parent, dist)
    ensures parent0.Keys < parent.Keys || (parent == parent0 && q == q0)
    ensures forall v :: v in parent0 ==> v in parent && parent[v] == parent0[v]
    ensures forall i :: 0 <= i < 4 && IsWalkable(g, Neighbor(cur, i).r, Neighbor(cur, i).c) ==> Neighbor(cur, i) in parent
    ensures |q| >= |q0| && forall j :: 0 <= j < |q0| ==> q[j] == q0[j]
    ensures forall j :: |q0| <= j < |q| ==> q[j] in parent && q[j] !in parent0
    ensures q == q0 + FreshNeighbors(g, cur, parent0, 4)
    ensures forall v :: v in parent <==> v in parent0 || v in FreshNeighbors(g, cur, parent0, 4)
    ensures forall v :: v in parent && v !in parent0 ==> parent[v] == cur
  {
    ghost var d := dist0[cur];
    FrontIsNearest(g, s, t, queued, parent0, dist0);
    q, parent, dist := q0, parent0, dist0;
    for i := 0 to 4
      invariant Expanded(g, s, cur, d, q0, parent0, dist0, q, parent, dist, i)
      invariant Enqueued(g, cur, q0, parent0, q, parent, i)
    {
      var n := Neighbor(cur, i);
      if IsWalkable(g, n.r, n.c) && n !in parent {
        ExpandAdd(g, s, cur, d, q0, parent0, dist0, q, parent, dist, i);
        EnqueuedAdd(g, cur, q0, parent0, q, parent, i);
        parent := parent[n := cur];
        dist := dist[n := d + 1];
        q := q + [n];
      } else {
        ExpandSkip(g, s, cur, d, q0, parent0, dist0, q, parent, dist, i);
        EnqueuedSkip(g, cur, q0, parent0, q, parent, i);
      }
    }
    ExpansionRestoresInv(g, s, t, cur, queued, q0, parent0, dist0, q, parent, dist);
  }

  // ---- From the invariant to the search's answers ----

  /** When the target reaches the queue front, no walk to it is shorter than its recorded distance. */
  lemma DequeuedIsShortest(g: Grid, s: Pos, t: Pos, q: seq<Pos>, parent: map<Pos, Pos>, dist: map<Pos, nat>)
    requires BfsInv(g, s, t, q, parent, dist) && q != [] && q[0] == t
    ensures t in dist
    ensures forall p :: IsPath(g, p, s, t) ==> dist[t] + 1 <= |p|
  {
    forall p | IsPath(g, p, s, t) ensures dist[t] + 1 <= |p| {
      FrontierBound(g, s, t, q, parent, dist, p, t);
    }
  }

  /**
   * A neighbour `n` of `s` from which a walk of `k` cells reaches `t`, where
   * no walk from `s` to `t` has fewer than `k + 1` cells, is a correct next step.
   */
  lemma NextStepFromChain(g: Grid, s: Pos, t: Pos, n: Pos, chain: seq<Pos>, k: nat)
    requires s != t && Adjacent(s, n) && IsWalkable(g, n.r, n.c)
    requires IsPath(g, chain, n, t) && |chain| == k
    requires forall p :: IsPath(g, p, s, t) ==> k + 1 <= |p|
    ensures IsNextStep(g, s, t, n)
  {
    PrependStep(g, s, n, chain, t);
    assert IsDistance(g, s, t, k);
    forall p | IsPath(g, p, n, t) ensures k <= |p| {
      PrependStep(g, s, n, p, t);
    }
    assert IsDistance(g, n, t, k - 1);
  }

  /** A target with a correct next step is reachable. */
  lemma NextStepMeansReachable(g: Grid, s: Pos, t: Pos, n: Pos)
    ensures IsNextStep(g, s, t, n) ==> Reachable(g, s, t)
  {
    if s == t {
      assert IsPath(g, [s], s, t);
    } else if IsNextStep(g, s, t, n) {
      var k: nat :| IsDistance(g, s, t, k + 1) && IsDistance(g, n, t, k);
    }
  }
}
