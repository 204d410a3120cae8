// Connected components of a cell's subgraph ("spans"): the vertices that
// survive the deletions are partitioned into weakly connected components,
// each found by breadth-first search from its least unvisited vertex, and
// the components' id lists are sorted by size, largest first, stably.

module Spans {

  import opened Wrappers
  import opened Netlist

  // ---------------------------------------------------------------------
  // Which vertices survive the deletions

  /** `get_spanning_trees` deletes the cell itself, VCC/GND and, for primitive spans, every non-primitive. */
  predicate SpanKept(g: Graph, primitiveOnly: bool, v: nat)
    requires v < |g.vs|
  {
    v != 0 && g.vs[v].ref != "VCC" && g.vs[v].ref != "GND" && (!primitiveOnly || g.vs[v].IsPrimitive())
  }

  /** `is_reachable` deletes the hierarchical vertices and VCC/GND. */
  predicate ReachKept(g: Graph, v: nat)
    requires v < |g.vs|
  {
    g.vs[v].color != Green && g.vs[v].ref != "VCC" && g.vs[v].ref != "GND"
  }

  function SpanMask(g: Graph, primitiveOnly: bool): (keep: seq<bool>)
    ensures |keep| == |g.vs|
    ensures forall v :: 0 <= v < |g.vs| ==> keep[v] == SpanKept(g, primitiveOnly, v)
  {
    seq(|g.vs|, v requires 0 <= v < |g.vs| => SpanKept(g, primitiveOnly, v))
  }

  function ReachMask(g: Graph): (keep: seq<bool>)
    ensures |keep| == |g.vs|
    ensures forall v :: 0 <= v < |g.vs| ==> keep[v] == ReachKept(g, v)
  {
    seq(|g.vs|, v requires 0 <= v < |g.vs| => ReachKept(g, v))
  }

  // ---------------------------------------------------------------------
  // Connectivity among the surviving vertices

  /** An edge joins `x` and `y` and neither was deleted, so the edge survives. */
  predicate Linked(g: Graph, keep: seq<bool>, x: nat, y: nat)
  {
    x < |keep| && y < |keep| && keep[x] && keep[y] && Adjacent(g, x, y)
  }

  lemma LinkedSymmetric(g: Graph, keep: seq<bool>, x: nat, y: nat)
    requires Linked(g, keep, x, y)
    ensures Linked(g, keep, y, x)
  {
    var e :| 0 <= e < |g.es| &&
      ((g.es[e].src == x && g.es[e].dst == y) || (g.es[e].src == y && g.es[e].dst == x));
  }

  /** A walk over surviving edges. */
  predicate Walk(g: Graph, keep: seq<bool>, p: seq<nat>)
  {
    |p| > 0 && forall i :: 0 <= i < |p| - 1 ==> Linked(g, keep, p[i], p[i + 1])
  }

  /** `y` lies in the weak component of `s`. */
  ghost predicate Reaches(g: Graph, keep: seq<bool>, s: nat, y: nat)
  {
    exists p :: Walk(g, keep, p) && p[0] == s && p[|p| - 1] == y
  }

  predicate Distinct(s: seq<nat>)
  {
    forall i, j :: 0 <= i < j < |s| ==> s[i] != s[j]
  }

  /** Every later vertex is linked to an earlier one. */
  predicate Grown(g: Graph, keep: seq<bool>, c: seq<nat>)
  {
    forall i :: 1 <= i < |c| ==> exists j :: 0 <= j < i && Linked(g, keep, c[j], c[i])
  }

  /** Every surviving neighbour of a listed vertex is listed. */
  predicate Closed(g: Graph, keep: seq<bool>, c: seq<nat>)
  {
    forall i, y :: 0 <= i < |c| && 0 <= y < |g.vs| && Linked(g, keep, c[i], y) ==> y in c
  }

  /** `c` lists, once each, the vertices of one weak component, starting from `c[0]`. */
  predicate IsComponent(g: Graph, keep: seq<bool>, c: seq<nat>)
  {
    |keep| == |g.vs| && |c| > 0 && Distinct(c) &&
    (forall i :: 0 <= i < |c| ==> c[i] < |g.vs| && keep[c[i]]) &&
    Grown(g, keep, c) && Closed(g, keep, c)
  }

  lemma {:induction false} ReachesIndex(g: Graph, keep: seq<bool>, c: seq<nat>, i: nat)
    requires IsComponent(g, keep, c) && i < |c|
    ensures Reaches(g, keep, c[0], c[i])
    decreases i
  {
    if i == 0 {
      assert Walk(g, keep, [c[0]]);
    } else {
      var j :| 0 <= j < i && Linked(g, keep, c[j], c[i]);
      ReachesIndex(g, keep, c, j);
      var p :| Walk(g, keep, p) && p[0] == c[0] && p[|p| - 1] == c[j];
      var q := p + [c[i]];
      forall k | 0 <= k < |q| - 1 ensures Linked(g, keep, q[k], q[k + 1]) {
        if k < |p| - 1 {
          assert q[k] == p[k] && q[k + 1] == p[k + 1];
        }
      }
      assert Walk(g, keep, q) && q[0] == c[0] && q[|q| - 1] == c[i];
    }
  }

  lemma {:induction false} ClosedHoldsWalk(g: Graph, keep: seq<bool>, c: seq<nat>, p: seq<nat>)
    requires IsComponent(g, keep, c) && Walk(g, keep, p) && p[0] in c
    ensures p[|p| - 1] in c
    decreases |p|
  {
    if |p| > 1 {
      var m := |p| - 1;
      var p' := p[..m];
      forall k | 0 <= k < |p'| - 1 ensures Linked(g, keep, p'[k], p'[k + 1]) {
        assert Linked(g, keep, p[k], p[k + 1]);
      }
      ClosedHoldsWalk(g, keep, c, p');
      assert p'[|p'| - 1] == p[m - 1];
      assert Linked(g, keep, p[m - 1], p[m]);
      var i :| 0 <= i < |c| && c[i] == p[m - 1];
      assert Linked(g, keep, c[i], p[m]);
    }
  }

  /** A component holds exactly the vertices reachable from its first vertex. */
  lemma ComponentIsReachability(g: Graph, keep: seq<bool>, c: seq<nat>, y: nat)
    requires IsComponent(g, keep, c)
    ensures y in c <==> Reaches(g, keep, c[0], y)
  {
    if y in c {
      var i :| 0 <= i < |c| && c[i] == y;
      ReachesIndex(g, keep, c, i);
    }
    if Reaches(g, keep, c[0], y) {
      var p :| Walk(g, keep, p) && p[0] == c[0] && p[|p| - 1] == y;
      ClosedHoldsWalk(g, keep, c, p);
    }
  }

  /** Searching outward from a component that meets a closed set stays inside it. */
  lemma {:induction false} GrownMeetsClosed(g: Graph, keep: seq<bool>, c: seq<nat>, d: seq<nat>, i: nat)
    requires IsComponent(g, keep, c) && IsComponent(g, keep, d)
    requires i < |c| && c[i] in d
    ensures c[0] in d
    decreases i
  {
    if i > 0 {
      var j :| 0 <= j < i && Linked(g, keep, c[j], c[i]);
      LinkedSymmetric(g, keep, c[j], c[i]);
      var k :| 0 <= k < |d| && d[k] == c[i];
      assert c[j] in d;
      GrownMeetsClosed(g, keep, c, d, j);
    }
  }

  /** Two components are disjoint unless the first vertex of one lies in the other. */
  lemma ComponentsDisjoint(g: Graph, keep: seq<bool>, c: seq<nat>, d: seq<nat>)
    requires IsComponent(g, keep, c) && IsComponent(g, keep, d)
    requires c[0] !in d
    ensures forall y :: y in c ==> y !in d
  {
    forall y | y in c ensures y !in d {
      if y in d {
        var i :| 0 <= i < |c| && c[i] == y;
        GrownMeetsClosed(g, keep, c, d, i);
      }
    }
  }

  // ---------------------------------------------------------------------
  // Breadth-first search

  /** How many entries are set. */
  function CountTrue(b: seq<bool>): (r: nat)
    ensures r <= |b|
  {
    if |b| == 0 then 0 else CountTrue(b[..|b| - 1]) + (if b[|b| - 1] then 1 else 0)
  }

  lemma {:induction false} CountTrueSet(b: seq<bool>, y: nat)
    requires y < |b| && !b[y]
    ensures CountTrue(b[y := true]) == CountTrue(b) + 1
    decreases |b|
  {
    var m := |b| - 1;
    if y < m {
      assert b[y := true][..m] == b[..m][y := true];
      CountTrueSet(b[..m], y);
    } else {
      assert b[y := true][..m] == b[..m];
    }
  }

  lemma {:induction false} CountTrueNone(n: nat)
    ensures CountTrue(seq(n, _ => false)) == 0
  {
    if n > 0 {
      assert seq(n, _ => false)[..n - 1] == seq(n - 1, _ => false);
      CountTrueNone(n - 1);
    }
  }

  /** The state of the search: `seen` marks the listed vertices, `from[i]` is the vertex that found `order[i]`. */
  predicate Searching(g: Graph, keep: seq<bool>, s: nat, order: seq<nat>, seen: seq<bool>, from: seq<nat>)
  {
    |seen| == |g.vs| == |keep| && |order| > 0 && order[0] == s &&
    (forall y :: 0 <= y < |g.vs| ==> (seen[y] <==> y in order)) &&
    |order| == CountTrue(seen) && Distinct(order) &&
    (forall i :: 0 <= i < |order| ==> order[i] < |g.vs| && keep[order[i]]) &&
    |from| == |order| &&
    (forall i :: 1 <= i < |order| ==> from[i] < i && Linked(g, keep, order[from[i]], order[i]))
  }

  /** Listing a fresh neighbour of `order[head]` keeps the search state. */
  lemma SearchStep(g: Graph, keep: seq<bool>, s: nat, order: seq<nat>, seen: seq<bool>, from: seq<nat>, head: nat, y: nat)
    requires Searching(g, keep, s, order, seen, from) && head < |order|
    requires y < |g.vs| && keep[y] && Adjacent(g, order[head], y) && !seen[y]
    ensures Searching(g, keep, s, order + [y], seen[y := true], from + [head])
    ensures forall z :: 0 <= z < |g.vs| && seen[z] ==> seen[y := true][z]
  {
    CountTrueSet(seen, y);
    var order' := order + [y];
    var from' := from + [head];
    assert Linked(g, keep, order'[from'[|order|]], order'[|order|]);
    forall i | 1 <= i < |order'| ensures from'[i] < i && Linked(g, keep, order'[from'[i]], order'[i]) {
      if i < |order| {
        assert from'[i] == from[i] && order'[from[i]] == order[from[i]] && order'[i] == order[i];
      }
    }
  }

  /**
   * `g.subcomponent(s, mode="all")`: breadth-first search over the
   * surviving edges in either direction, neighbours in ascending order.
   */
  method Component(g: Graph, keep: seq<bool>, s: nat) returns (order: seq<nat>)
    requires |keep| == |g.vs| && s < |g.vs| && keep[s]
    ensures IsComponent(g, keep, order) && order[0] == s
  {
    CountTrueNone(|g.vs|);
    CountTrueSet(seq(|g.vs|, _ => false), s);
    var seen := seq(|g.vs|, _ => false)[s := true];
    order := [s];
    ghost var from: seq<nat> := [0];
    var head := 0;
    while head < |order|
      invariant 0 <= head <= |order|
      invariant Searching(g, keep, s, order, seen, from)
      invariant Expanded(g, keep, order, seen, head)
      decreases |g.vs| - head
    {
      order, seen, from := VisitNeighbours(g, keep, s, order, seen, from, head);
      head := head + 1;
    }
    forall i | 1 <= i < |order| ensures exists j :: 0 <= j < i && Linked(g, keep, order[j], order[i]) {
      assert Linked(g, keep, order[from[i]], order[i]);
    }
  }

  /** The neighbours of the first `head` listed vertices are all seen. */
  ghost predicate Expanded(g: Graph, keep: seq<bool>, order: seq<nat>, seen: seq<bool>, head: nat)
  {
    |seen| == |g.vs| && head <= |order| &&
    forall i, y :: 0 <= i < head && 0 <= y < |g.vs| && Linked(g, keep, order[i], y) ==> seen[y]
  }

  /** Listing one more vertex keeps the expanded prefix expanded. */
  lemma ExpandedSnoc(g: Graph, keep: seq<bool>, order: seq<nat>, seen: seq<bool>, head: nat, y: nat)
    requires Expanded(g, keep, order, seen, head) && y < |seen|
    ensures Expanded(g, keep, order + [y], seen[y := true], head)
  {
    forall i, z | 0 <= i < head && 0 <= z < |g.vs| && Linked(g, keep, (order + [y])[i], z)
      ensures seen[y := true][z]
    {
      assert (order + [y])[i] == order[i];
    }
  }

  /** The inner loop of the search: every surviving neighbour of `order[head]` is seen. */
  method VisitNeighbours(g: Graph, keep: seq<bool>, ghost s: nat, order: seq<nat>, seen: seq<bool>,
                         ghost from: seq<nat>, head: nat)
    returns (order': seq<nat>, seen': seq<bool>, ghost from': seq<nat>)
    requires Searching(g, keep, s, order, seen, from) && head < |order|
    requires Expanded(g, keep, order, seen, head)
    ensures Searching(g, keep, s, order', seen', from')
    ensures Expanded(g, keep, order', seen', head + 1)
  {
    var x := order[head];
    order', seen', from' := order, seen, from;
    var y := 0;
    while y < |g.vs|
      invariant 0 <= y <= |g.vs| && head < |order'| && order'[head] == x
      invariant Searching(g, keep, s, order', seen', from')
      invariant Expanded(g, keep, order', seen', head)
      invariant forall z :: 0 <= z < y && Linked(g, keep, x, z) ==> seen'[z]
    {
      if keep[y] && Adjacent(g, x, y) && !seen'[y] {
        SearchStep(g, keep, s, order', seen', from', head, y);
        ExpandedSnoc(g, keep, order', seen', head, y);
        seen' := seen'[y := true];
        order' := order' + [y];
        from' := from' + [head];
      }
      y := y + 1;
    }
  }

  // ---------------------------------------------------------------------
  // All components

  /** Some listed component holds `y`. */
  predicate Covered(comps: seq<seq<nat>>, y: nat)
  {
    exists k :: 0 <= k < |comps| && y in comps[k]
  }

  /**
   * The components of the surviving vertices, each once: pairwise disjoint,
   * together holding every surviving vertex.
   */
  predicate Partition(g: Graph, keep: seq<bool>, comps: seq<seq<nat>>)
  {
    |keep| == |g.vs| &&
    (forall k :: 0 <= k < |comps| ==> IsComponent(g, keep, comps[k])) &&
    (forall y :: 0 <= y < |g.vs| && keep[y] ==> Covered(comps, y)) &&
    (forall k, l, y :: 0 <= k < l < |comps| && y in comps[k] ==> y !in comps[l])
  }

  /** Each component starts at its least vertex, and components come in order of their least vertices. */
  predicate LeastFirst(comps: seq<seq<nat>>)
  {
    (forall k, i :: 0 <= k < |comps| && 0 <= i < |comps[k]| ==> comps[k][0] <= comps[k][i]) &&
    (forall k, l :: 0 <= k < l < |comps| && |comps[k]| > 0 && |comps[l]| > 0 ==> comps[k][0] < comps[l][0])
  }

  /** The state of the outer loop after the vertices below `v`. */
  predicate Visiting(g: Graph, keep: seq<bool>, comps: seq<seq<nat>>, v: nat)
  {
    |keep| == |g.vs| &&
    (forall k :: 0 <= k < |comps| ==> IsComponent(g, keep, comps[k]) && comps[k][0] < v) &&
    (forall y :: 0 <= y < v && y < |g.vs| && keep[y] ==> Covered(comps, y)) &&
    (forall k, l, y :: 0 <= k < l < |comps| && y in comps[k] ==> y !in comps[l]) &&
    LeastFirst(comps)
  }

  lemma CoveredSnoc(comps: seq<seq<nat>>, c: seq<nat>, y: nat)
    ensures Covered(comps + [c], y) <==> Covered(comps, y) || y in c
  {
    if Covered(comps, y) {
      var k :| 0 <= k < |comps| && y in comps[k];
      assert (comps + [c])[k] == comps[k];
    }
    if y in c {
      assert (comps + [c])[|comps|] == c;
    }
    if Covered(comps + [c], y) && !(y in c) {
      var k :| 0 <= k < |comps + [c]| && y in (comps + [c])[k];
      assert k < |comps|;
    }
  }

  /** A component started at an unvisited vertex shares no vertex with the listed ones, and starts at its least vertex. */
  lemma NewComponentApart(g: Graph, keep: seq<bool>, comps: seq<seq<nat>>, c: seq<nat>, v: nat)
    requires Visiting(g, keep, comps, v) && v < |g.vs| && keep[v] && !Covered(comps, v)
    requires IsComponent(g, keep, c) && c[0] == v
    ensures forall k, y :: 0 <= k < |comps| && y in c ==> y !in comps[k]
    ensures forall i :: 0 <= i < |c| ==> v <= c[i]
  {
    forall k | 0 <= k < |comps| ensures forall y :: y in c ==> y !in comps[k] {
      if v in comps[k] {
        assert Covered(comps, v);
      }
      ComponentsDisjoint(g, keep, c, comps[k]);
    }
    assert forall i :: 0 <= i < |c| ==> v <= c[i];
  }

  lemma SnocDisjoint(comps: seq<seq<nat>>, c: seq<nat>)
    requires forall k, l, y :: 0 <= k < l < |comps| && y in comps[k] ==> y !in comps[l]
    requires forall k, y :: 0 <= k < |comps| && y in c ==> y !in comps[k]
    ensures forall k, l, y :: 0 <= k < l < |comps + [c]| && y in (comps + [c])[k] ==> y !in (comps + [c])[l]
  {
    var comps' := comps + [c];
    forall k, l, y | 0 <= k < l < |comps'| && y in comps'[k] ensures y !in comps'[l] {
      assert comps'[k] == comps[k];
      if l < |comps| {
        assert comps'[l] == comps[l];
      }
    }
  }

  lemma SnocLeastFirst(comps: seq<seq<nat>>, c: seq<nat>, v: nat)
    requires LeastFirst(comps) && |c| > 0 && c[0] == v
    requires forall k :: 0 <= k < |comps| ==> |comps[k]| > 0 && comps[k][0] < v
    requires forall i :: 0 <= i < |c| ==> v <= c[i]
    ensures LeastFirst(comps + [c])
  {
    var comps' := comps + [c];
    assert forall k :: 0 <= k < |comps| ==> comps'[k] == comps[k];
  }

  /** An unvisited surviving vertex starts a new component, disjoint from the others. */
  lemma AddComponent(g: Graph, keep: seq<bool>, comps: seq<seq<nat>>, c: seq<nat>, v: nat)
    requires Visiting(g, keep, comps, v) && v < |g.vs| && keep[v] && !Covered(comps, v)
    requires IsComponent(g, keep, c) && c[0] == v
    ensures Visiting(g, keep, comps + [c], v + 1)
  {
    var comps' := comps + [c];
    NewComponentApart(g, keep, comps, c, v);
    forall y | 0 <= y < v + 1 && y < |g.vs| && keep[y] ensures Covered(comps', y) {
      CoveredSnoc(comps, c, y);
    }
    SnocDisjoint(comps, c);
    SnocLeastFirst(comps, c, v);
    forall k | 0 <= k < |comps'| ensures IsComponent(g, keep, comps'[k]) && comps'[k][0] < v + 1 {
      if k < |comps| {
        assert comps'[k] == comps[k];
      }
    }
  }

  lemma SkipVertex(g: Graph, keep: seq<bool>, comps: seq<seq<nat>>, v: nat)
    requires Visiting(g, keep, comps, v) && v < |g.vs| && (!keep[v] || Covered(comps, v))
    ensures Visiting(g, keep, comps, v + 1)
  {
  }

  /** The id lists of the components. */
  function Ids(g: Graph, c: seq<nat>): (r: seq<int>)
    requires forall i :: 0 <= i < |c| ==> c[i] < |g.vs|
    ensures |r| == |c|
  {
    if |c| == 0 then [] else Ids(g, c[..|c| - 1]) + [g.vs[c[|c| - 1]].id]
  }

  function IdLists(g: Graph, comps: seq<seq<nat>>): (r: seq<seq<int>>)
    requires forall k, i :: 0 <= k < |comps| && 0 <= i < |comps[k]| ==> comps[k][i] < |g.vs|
    ensures |r| == |comps|
  {
    if |comps| == 0 then [] else IdLists(g, comps[..|comps| - 1]) + [Ids(g, comps[|comps| - 1])]
  }

  /** The inner loop: the ids of `c` in order, each vertex of `c` marked visited. */
  method VisitComponent(g: Graph, c: seq<nat>, visited: seq<nat>) returns (reach: seq<int>, visited': seq<nat>)
    requires forall i :: 0 <= i < |c| ==> c[i] < |g.vs|
    ensures reach == Ids(g, c)
    ensures forall y :: y in visited' <==> y in visited || y in c
  {
    reach := [];
    visited' := visited;
    var k := 0;
    while k < |c|
      invariant 0 <= k <= |c|
      invariant reach == Ids(g, c[..k])
      invariant forall y :: y in visited' <==> y in visited || y in c[..k]
    {
      assert c[..k + 1][..k] == c[..k];
      reach := reach + [g.vs[c[k]].id];
      visited' := visited' + [c[k]];
      assert c[..k + 1] == c[..k] + [c[k]];
      k := k + 1;
    }
    assert c[..|c|] == c;
  }

  /** The outer loop's state after the vertices below `v`, with `visited` and the id lists kept in step. */
  ghost predicate Scanned(g: Graph, keep: seq<bool>, comps: seq<seq<nat>>, visited: seq<nat>, lists: seq<seq<int>>, v: nat)
  {
    v <= |g.vs| && Visiting(g, keep, comps, v) &&
    (forall y :: y in visited <==> Covered(comps, y)) &&
    lists == IdLists(g, comps)
  }

  /** One round of the outer loop, at vertex `v`. */
  method ScanVertex(g: Graph, keep: seq<bool>, comps: seq<seq<nat>>, visited: seq<nat>, lists: seq<seq<int>>, v: nat)
    returns (comps': seq<seq<nat>>, visited': seq<nat>, lists': seq<seq<int>>)
    requires v < |g.vs| && Scanned(g, keep, comps, visited, lists, v)
    ensures Scanned(g, keep, comps', visited', lists', v + 1)
  {
    if keep[v] && v !in visited {
      var c := Component(g, keep, v);
      var reach;
      reach, visited' := VisitComponent(g, c, visited + [v]);
      ScanAdds(g, keep, comps, visited, lists, v, c, reach, visited');
      comps' := comps + [c];
      lists' := lists + [reach];
    } else {
      ScanSkips(g, keep, comps, visited, lists, v);
      comps', visited', lists' := comps, visited, lists;
    }
  }

  lemma ScanAdds(g: Graph, keep: seq<bool>, comps: seq<seq<nat>>, visited: seq<nat>, lists: seq<seq<int>>, v: nat,
                 c: seq<nat>, reach: seq<int>, visited': seq<nat>)
    requires v < |g.vs| && Scanned(g, keep, comps, visited, lists, v) && keep[v] && v !in visited
    requires IsComponent(g, keep, c) && c[0] == v && reach == Ids(g, c)
    requires forall y :: y in visited' <==> y in visited + [v] || y in c
    ensures Scanned(g, keep, comps + [c], visited', lists + [reach], v + 1)
  {
    forall y ensures y in visited' <==> Covered(comps + [c], y) {
      CoveredSnoc(comps, c, y);
    }
    AddComponent(g, keep, comps, c, v);
    assert (comps + [c])[..|comps|] == comps;
  }

  lemma ScanSkips(g: Graph, keep: seq<bool>, comps: seq<seq<nat>>, visited: seq<nat>, lists: seq<seq<int>>, v: nat)
    requires v < |g.vs| && Scanned(g, keep, comps, visited, lists, v) && (!keep[v] || v in visited)
    ensures Scanned(g, keep, comps, visited, lists, v + 1)
  {
    SkipVertex(g, keep, comps, v);
  }

  /**
   * The outer loop of `get_spanning_trees`: each surviving vertex not yet
   * visited starts a component; its vertices, then their ids, are listed.
   */
  method SpanningComponents(g: Graph, keep: seq<bool>) returns (comps: seq<seq<nat>>, lists: seq<seq<int>>)
    requires |keep| == |g.vs|
    ensures Partition(g, keep, comps) && LeastFirst(comps)
    ensures lists == IdLists(g, comps)
  {
    var visited: seq<nat> := [];
    comps := [];
    lists := [];
    var v := 0;
    while v < |g.vs|
      invariant Scanned(g, keep, comps, visited, lists, v)
      decreases |g.vs| - v
    {
      comps, visited, lists := ScanVertex(g, keep, comps, visited, lists, v);
      v := v + 1;
    }
  }

  // ---------------------------------------------------------------------
  // Sorting by size, largest first, stably

  /** Places `x` after every element at least as long, before the shorter tail. */
  function InsertBySize<T>(s: seq<seq<T>>, x: seq<T>): (r: seq<seq<T>>)
    ensures multiset(r) == multiset(s) + multiset{x}
  {
    if |s| == 0 then [x]
    else if |s[|s| - 1]| >= |x| then s + [x]
    else
      var m := |s| - 1;
      assert s == s[..m] + [s[m]];
      InsertBySize(s[..m], x) + [s[m]]
  }

  /** `list.sort(key=len, reverse=True)`: a stable sort by decreasing length. */
  function SortBySize<T>(l: seq<seq<T>>): (r: seq<seq<T>>)
  {
    if |l| == 0 then [] else InsertBySize(SortBySize(l[..|l| - 1]), l[|l| - 1])
  }

  predicate SizeDescending<T>(s: seq<seq<T>>)
  {
    forall i, j :: 0 <= i < j < |s| ==> |s[i]| >= |s[j]|
  }

  /** The elements of length `n`, in order. */
  function OfSize<T>(s: seq<seq<T>>, n: nat): seq<seq<T>>
  {
    if |s| == 0 then [] else OfSize(s[..|s| - 1], n) + (if |s[|s| - 1]| == n then [s[|s| - 1]] else [])
  }

  /** Inserting into a list of long-enough elements keeps every element long enough. */
  lemma {:induction false} InsertAtLeast<T>(s: seq<seq<T>>, x: seq<T>, b: nat)
    requires forall k :: 0 <= k < |s| ==> |s[k]| >= b
    requires |x| >= b
    ensures forall k :: 0 <= k < |InsertBySize(s, x)| ==> |InsertBySize(s, x)[k]| >= b
    decreases |s|
  {
    if |s| > 0 && |s[|s| - 1]| < |x| {
      var m := |s| - 1;
      InsertAtLeast(s[..m], x, b);
      assert InsertBySize(s, x) == InsertBySize(s[..m], x) + [s[m]];
    }
  }

  lemma {:induction false} InsertDescending<T>(s: seq<seq<T>>, x: seq<T>)
    requires SizeDescending(s)
    ensures SizeDescending(InsertBySize(s, x))
    decreases |s|
  {
    if |s| > 0 && |s[|s| - 1]| < |x| {
      var m := |s| - 1;
      var r := InsertBySize(s[..m], x);
      assert InsertBySize(s, x) == r + [s[m]];
      InsertDescending(s[..m], x);
      InsertAtLeast(s[..m], x, |s[m]|);
    }
  }

  lemma OfSizeSnoc<T>(s: seq<seq<T>>, y: seq<T>, n: nat)
    ensures OfSize(s + [y], n) == OfSize(s, n) + (if |y| == n then [y] else [])
  {
    assert (s + [y])[..|s|] == s;
  }

  lemma {:induction false} InsertOfSize<T>(s: seq<seq<T>>, x: seq<T>, n: nat)
    ensures OfSize(InsertBySize(s, x), n) == OfSize(s, n) + (if |x| == n then [x] else [])
    decreases |s|
  {
    if |s| == 0 {
      OfSizeSnoc(s, x, n);
      assert s + [x] == [x];
    } else if |s[|s| - 1]| >= |x| {
      OfSizeSnoc(s, x, n);
    } else {
      var m := |s| - 1;
      var r := InsertBySize(s[..m], x);
      assert InsertBySize(s, x) == r + [s[m]];
      InsertOfSize(s[..m], x, n);
      OfSizeSnoc(r, s[m], n);
      OfSizeSnoc(s[..m], s[m], n);
      assert s[..m] + [s[m]] == s;
    }
  }

  /** The sort orders by decreasing length. */
  lemma {:induction false} SortBySizeDescending<T>(l: seq<seq<T>>)
    ensures SizeDescending(SortBySize(l))
    decreases |l|
  {
    if |l| > 0 {
      SortBySizeDescending(l[..|l| - 1]);
      InsertDescending(SortBySize(l[..|l| - 1]), l[|l| - 1]);
    }
  }

  /** The sort rearranges its input. */
  lemma {:induction false} SortBySizePermutes<T>(l: seq<seq<T>>)
    ensures multiset(SortBySize(l)) == multiset(l)
    decreases |l|
  {
    if |l| > 0 {
      SortBySizePermutes(l[..|l| - 1]);
      assert l == l[..|l| - 1] + [l[|l| - 1]];
    }
  }

  /** The sort is stable: lists of equal length keep their order. */
  lemma {:induction false} SortBySizeStable<T>(l: seq<seq<T>>, n: nat)
    ensures OfSize(SortBySize(l), n) == OfSize(l, n)
    decreases |l|
  {
    if |l| > 0 {
      SortBySizeStable(l[..|l| - 1], n);
      InsertOfSize(SortBySize(l[..|l| - 1]), l[|l| - 1], n);
    }
  }

  // ---------------------------------------------------------------------
  // The two entry points

  /**
   * `spans` lists the id lists of the components of what survives the
   * deletions, largest first.
   */
  ghost predicate SpansOf(g: Graph, primitiveOnly: bool, spans: seq<seq<int>>)
  {
    exists comps :: Partition(g, SpanMask(g, primitiveOnly), comps) && LeastFirst(comps) &&
      spans == SortBySize(IdLists(g, comps))
  }

  /** `get_spanning_trees(g, primitive_only)`. */
  method GetSpanningTrees(g: Graph, primitiveOnly: bool) returns (spans: seq<seq<int>>)
    ensures SpansOf(g, primitiveOnly, spans)
  {
    var comps, lists := SpanningComponents(g, SpanMask(g, primitiveOnly));
    spans := SortBySize(lists);
  }

  /** The first surviving vertex, `g.vs[0]` after the deletions. */
  function FirstKept(keep: seq<bool>): (r: Option<nat>)
    ensures r.Some? ==> r.value < |keep| && keep[r.value] && forall y :: 0 <= y < r.value ==> !keep[y]
    ensures r.None? ==> forall y :: 0 <= y < |keep| ==> !keep[y]
  {
    if |keep| == 0 then None
    else if keep[0] then Some(0)
    else match FirstKept(keep[1..])
      case None => None
      case Some(k) => Some(k + 1)
  }

  /**
   * `is_reachable(g)`: after deleting the hierarchical and VCC/GND
   * vertices, whether every remaining vertex lies in the component of the
   * first; indexing the first vertex of an empty graph raises.
   */
  method IsReachable(g: Graph) returns (r: Outcome<bool>)
    ensures r.Raises? <==> forall y :: 0 <= y < |g.vs| ==> !ReachKept(g, y)
    ensures r.Done? ==> (FirstKept(ReachMask(g)).Some? &&
      (r.value <==> forall y :: 0 <= y < |g.vs| && ReachKept(g, y) ==>
        Reaches(g, ReachMask(g), FirstKept(ReachMask(g)).value, y)))
  {
    var keep := ReachMask(g);
    var first := FirstKept(keep);
    if first.None? {
      return Raises("vertex index out of range");
    }
    var reach := Component(g, keep, first.value);
    var all := true;
    var y := 0;
    while y < |g.vs|
      invariant 0 <= y <= |g.vs|
      invariant all <==> forall z :: 0 <= z < y && keep[z] ==> z in reach
    {
      if keep[y] && y !in reach {
        all := false;
      }
      y := y + 1;
    }
    forall z | 0 <= z < |g.vs| ensures z in reach <==> Reaches(g, keep, first.value, z) {
      ComponentIsReachability(g, keep, reach, z);
    }
    return Done(all);
  }
}
