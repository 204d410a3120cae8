// The vertex matcher: extends a partial map from design vertices (g1) to
// template vertices (g2) by walking, from a pair of vertices already
// believed to correspond, every edge signature of the template vertex and
// finding a design neighbour along an edge with the same signature.
// Backtracking is first-success: the first candidate whose recursive
// comparison succeeds is kept.

module Matcher {

  import opened Wrappers
  import opened Netlist
  import opened Equation

  const EqnKey: string := "CONFIG.EQN"

  /**
   * `compare_ref`: equal cell types and, for primitives, agreement on the
   * BEL properties both vertices carry. `CONFIG.EQN` is first tested with
   * the equation comparison and then, like every other property, for
   * textual equality.
   */
  function CompareRef(a: Vertex, b: Vertex): (r: bool)
    ensures a.ref != b.ref ==> !r
    ensures a.ref == b.ref && !a.IsPrimitive() ==> r
  {
    a.ref == b.ref &&
    (!a.IsPrimitive() ||
     forall p :: p in a.Bel() && p in b.Bel() ==>
       (p == EqnKey ==> CompareEqn(a.Bel()[p], b.Bel()[p])) && a.Bel()[p] == b.Bel()[p])
  }

  /**
   * For primitives the equation test adds nothing: the comparison holds
   * exactly when every shared BEL property is textually equal, so two
   * pin-swapped but equivalent equations do not match here.
   */
  lemma CompareRefMeaning(a: Vertex, b: Vertex)
    requires a.ref == b.ref && a.IsPrimitive()
    ensures CompareRef(a, b) <==>
      forall p :: p in a.Bel() && p in b.Bel() ==> a.Bel()[p] == b.Bel()[p]
  {
    if forall p :: p in a.Bel() && p in b.Bel() ==> a.Bel()[p] == b.Bel()[p] {
      forall p | p in a.Bel() && p in b.Bel()
        ensures (p == EqnKey ==> CompareEqn(a.Bel()[p], b.Bel()[p]))
      {
        CompareEqnReflexive(a.Bel()[p]);
      }
    }
  }

  lemma CompareRefReflexive(a: Vertex)
    ensures CompareRef(a, a)
  {
    if a.IsPrimitive() {
      CompareRefMeaning(a, a);
    }
  }

  /** `is_constant_vertex`: the constant drivers GND and VCC. */
  predicate IsConstantVertex(v: Vertex)
  {
    v.ref == "GND" || v.ref == "VCC"
  }

  // ---------------------------------------------------------------------
  // Edge signatures

  /** The signature key `in_pin.out_pin.signal` of an edge. */
  function EdgeKey(e: Edge): string
  {
    e.inPin + "." + e.outPin + "." + SignalName(e.signal)
  }

  /** The incident edges the two phases walk: in-edges, or out-edges. */
  function Incident(g: Graph, v: nat, outward: bool): (r: seq<nat>)
    ensures forall k :: 0 <= k < |r| ==> r[k] < |g.es|
    ensures forall k :: 0 <= k < |r| ==> Far(g.es[r[k]], outward) < |g.vs|
  {
    if outward then OutEdges(g, v) else InEdges(g, v)
  }

  /** The neighbour an incident edge leads to: its source or its target. */
  function Far(e: Edge, outward: bool): nat
  {
    if outward then e.dst else e.src
  }

  /**
   * The far ends, in order, of the edges in `es` that are not port edges
   * and carry signature `key`.
   */
  function Ends(g: Graph, es: seq<nat>, outward: bool, key: string): (r: seq<int>)
    requires forall k :: 0 <= k < |es| ==> es[k] < |g.es|
    ensures |r| <= |es|
  {
    if |es| == 0 then []
    else
      var e := g.es[es[|es| - 1]];
      Ends(g, es[..|es| - 1], outward, key) +
        (if e.signal != Port && EdgeKey(e) == key then [Far(e, outward) as int] else [])
  }

  /** The endpoint list of one signature for vertex `v`. */
  function Endpoints(g: Graph, v: nat, outward: bool, key: string): seq<int>
  {
    Ends(g, Incident(g, v, outward), outward, key)
  }

  lemma {:induction false} EndsComplete(g: Graph, es: seq<nat>, outward: bool, k: nat)
    requires forall j :: 0 <= j < |es| ==> es[j] < |g.es|
    requires k < |es| && g.es[es[k]].signal != Port
    ensures Far(g.es[es[k]], outward) as int in Ends(g, es, outward, EdgeKey(g.es[es[k]]))
    decreases |es|
  {
    if k < |es| - 1 {
      EndsComplete(g, es[..|es| - 1], outward, k);
    }
  }

  lemma {:induction false} EndsBounded(g: Graph, es: seq<nat>, outward: bool, key: string)
    requires forall j :: 0 <= j < |es| ==> es[j] < |g.es| && Far(g.es[es[j]], outward) < |g.vs|
    ensures forall x :: x in Ends(g, es, outward, key) ==> 0 <= x < |g.vs|
    decreases |es|
  {
    if |es| > 0 {
      EndsBounded(g, es[..|es| - 1], outward, key);
    }
  }

  lemma {:induction false} EndsOfPortsOnly(g: Graph, es: seq<nat>, outward: bool, key: string)
    requires forall j :: 0 <= j < |es| ==> es[j] < |g.es| && g.es[es[j]].signal == Port
    ensures Ends(g, es, outward, key) == []
    decreases |es|
  {
    if |es| > 0 {
      EndsOfPortsOnly(g, es[..|es| - 1], outward, key);
    }
  }

  /** One entry of the signature dictionary. */
  datatype Group = Group(key: string, e2: seq<int>, e1: seq<int>)

  /** The two lists stored under `key`, or two empty lists. */
  function Lookup(groups: seq<Group>, key: string): (r: (seq<int>, seq<int>))
  {
    if |groups| == 0 then ([], [])
    else if groups[0].key == key then (groups[0].e2, groups[0].e1)
    else Lookup(groups[1..], key)
  }

  predicate DistinctKeys(groups: seq<Group>)
  {
    forall i, j :: 0 <= i < j < |groups| ==> groups[i].key != groups[j].key
  }

  lemma {:induction false} LookupAt(groups: seq<Group>, i: nat)
    requires DistinctKeys(groups) && i < |groups|
    ensures Lookup(groups, groups[i].key) == (groups[i].e2, groups[i].e1)
    decreases |groups|
  {
    if i > 0 {
      LookupAt(groups[1..], i - 1);
    }
  }

  /** `setdefault(key, ...)[side].append(x)` on the dictionary. */
  function AddTo(groups: seq<Group>, key: string, x: int, second: bool): (r: seq<Group>)
    requires DistinctKeys(groups)
    ensures DistinctKeys(r)
    ensures forall k ::
      Lookup(r, k) == (if k != key then Lookup(groups, k)
                       else if second then (Lookup(groups, k).0 + [x], Lookup(groups, k).1)
                       else (Lookup(groups, k).0, Lookup(groups, k).1 + [x]))
    ensures |groups| <= |r| <= |groups| + 1
    ensures forall i :: 0 <= i < |groups| ==> r[i].key == groups[i].key
    ensures |r| == |groups| + 1 ==>
      r[|groups|].key == key && forall i :: 0 <= i < |groups| ==> groups[i].key != key
    decreases |groups|
  {
    if |groups| == 0 then
      var r := if second then [Group(key, [x], [])] else [Group(key, [], [x])];
      assert r[1..] == [];
      assert Lookup(groups, key) == ([], []);
      assert [] + [x] == [x];
      r
    else if groups[0].key == key then
      var g := groups[0];
      (if second then [Group(key, g.e2 + [x], g.e1)] else [Group(key, g.e2, g.e1 + [x])]) + groups[1..]
    else
      [groups[0]] + AddTo(groups[1..], key, x, second)
  }

  /** The endpoint list of a prefix grows by at most the next edge's end. */
  lemma {:induction false} EndsSnoc(g: Graph, l: seq<nat>, i: nat, outward: bool, key: string)
    requires forall k :: 0 <= k < |l| ==> l[k] < |g.es|
    requires i < |l|
    ensures Ends(g, l[..i + 1], outward, key) ==
      Ends(g, l[..i], outward, key) +
      (if g.es[l[i]].signal != Port && EdgeKey(g.es[l[i]]) == key then [Far(g.es[l[i]], outward) as int] else [])
  {
    assert l[..i + 1][..i] == l[..i];
  }

  /**
   * One side of one step of the walk: files the far end of edge `l[i]`
   * unless it is a port edge or the list is already exhausted.
   */
  function File(groups: seq<Group>, g: Graph, l: seq<nat>, i: nat, outward: bool, second: bool): (r: seq<Group>)
    requires DistinctKeys(groups)
    requires forall k :: 0 <= k < |l| ==> l[k] < |g.es|
    ensures DistinctKeys(r)
  {
    if i >= |l| then groups
    else
      var e := g.es[l[i]];
      if e.signal != Port then AddTo(groups, EdgeKey(e), Far(e, outward), second) else groups
  }

  /** Filing extends the side walked by one edge and leaves the other alone. */
  lemma {:induction false} FileStep(groups: seq<Group>, g: Graph, l: seq<nat>, i: nat, outward: bool, second: bool)
    requires DistinctKeys(groups)
    requires forall k :: 0 <= k < |l| ==> l[k] < |g.es|
    requires second ==> forall k :: Lookup(groups, k).0 == Ends(g, l[..Min(i, |l|)], outward, k)
    requires !second ==> forall k :: Lookup(groups, k).1 == Ends(g, l[..Min(i, |l|)], outward, k)
    ensures second ==> forall k ::
      Lookup(File(groups, g, l, i, outward, second), k).0 == Ends(g, l[..Min(i + 1, |l|)], outward, k) &&
      Lookup(File(groups, g, l, i, outward, second), k).1 == Lookup(groups, k).1
    ensures !second ==> forall k ::
      Lookup(File(groups, g, l, i, outward, second), k).1 == Ends(g, l[..Min(i + 1, |l|)], outward, k) &&
      Lookup(File(groups, g, l, i, outward, second), k).0 == Lookup(groups, k).0
  {
    if i < |l| {
      forall k
        ensures Ends(g, l[..i + 1], outward, k) ==
          Ends(g, l[..i], outward, k) +
          (if g.es[l[i]].signal != Port && EdgeKey(g.es[l[i]]) == k then [Far(g.es[l[i]], outward) as int] else [])
      {
        EndsSnoc(g, l, i, outward, k);
      }
    }
  }

  /**
   * `get_edge_dict_in` (outward = false) and `get_edge_dict_out`
   * (outward = true): the edges of `v1` and `v2` are walked side by side,
   * the template side first at each position; port edges are skipped and
   * every other edge files its far end under its signature.
   */
  method GetEdgeDict(g1: Graph, v1: nat, g2: Graph, v2: nat, outward: bool)
    returns (groups: seq<Group>)
    ensures DistinctKeys(groups)
    ensures forall k ::
      Lookup(groups, k) == (Endpoints(g2, v2, outward, k), Endpoints(g1, v1, outward, k))
    ensures forall i :: 0 <= i < |groups| ==>
      groups[i].e2 == Endpoints(g2, v2, outward, groups[i].key) &&
      groups[i].e1 == Endpoints(g1, v1, outward, groups[i].key)
    ensures forall i :: 0 <= i < |groups| ==>
      (forall x :: x in groups[i].e1 ==> 0 <= x < |g1.vs|) &&
      (forall x :: x in groups[i].e2 ==> 0 <= x < |g2.vs|)
  {
    var n;
    groups, n := Walk(g1, Incident(g1, v1, outward), g2, Incident(g2, v2, outward), outward);
    WalkEnds(g1, v1, g2, v2, outward, groups, n);
  }

  /** The side-by-side walk over the two edge lists, as long as the longer one. */
  method Walk(g1: Graph, l1: seq<nat>, g2: Graph, l2: seq<nat>, outward: bool) returns (groups: seq<Group>, n: nat)
    requires forall k :: 0 <= k < |l1| ==> l1[k] < |g1.es|
    requires forall k :: 0 <= k < |l2| ==> l2[k] < |g2.es|
    ensures |l1| <= n && |l2| <= n && Walked(groups, g1, l1, g2, l2, n, outward)
  {
    groups := [];
    n := if |l1| < |l2| then |l2| else |l1|;
    var i := 0;
    while i < n
      invariant 0 <= i <= n
      invariant Walked(groups, g1, l1, g2, l2, i, outward)
    {
      WalkStep(groups, g1, l1, g2, l2, i, outward);
      var mid := File(groups, g2, l2, i, outward, true);
      groups := File(mid, g1, l1, i, outward, false);
      i := i + 1;
    }
  }

  /** A walk that has passed both lists has filed every endpoint. */
  lemma WalkEnds(g1: Graph, v1: nat, g2: Graph, v2: nat, outward: bool, groups: seq<Group>, n: nat)
    requires |Incident(g1, v1, outward)| <= n && |Incident(g2, v2, outward)| <= n
    requires Walked(groups, g1, Incident(g1, v1, outward), g2, Incident(g2, v2, outward), n, outward)
    ensures DistinctKeys(groups)
    ensures forall k ::
      Lookup(groups, k) == (Endpoints(g2, v2, outward, k), Endpoints(g1, v1, outward, k))
    ensures forall i :: 0 <= i < |groups| ==>
      groups[i].e2 == Endpoints(g2, v2, outward, groups[i].key) &&
      groups[i].e1 == Endpoints(g1, v1, outward, groups[i].key)
    ensures forall i :: 0 <= i < |groups| ==>
      (forall x :: x in groups[i].e1 ==> 0 <= x < |g1.vs|) &&
      (forall x :: x in groups[i].e2 ==> 0 <= x < |g2.vs|)
  {
    var l1 := Incident(g1, v1, outward);
    var l2 := Incident(g2, v2, outward);
    assert l1[..Min(n, |l1|)] == l1;
    assert l2[..Min(n, |l2|)] == l2;
    GroupsAreEndpoints(g1, v1, g2, v2, outward, groups);
  }

  /** The dictionary after `i` steps of the side-by-side walk. */
  ghost predicate Walked(groups: seq<Group>, g1: Graph, l1: seq<nat>, g2: Graph, l2: seq<nat>, i: nat, outward: bool)
    requires forall k :: 0 <= k < |l1| ==> l1[k] < |g1.es|
    requires forall k :: 0 <= k < |l2| ==> l2[k] < |g2.es|
  {
    DistinctKeys(groups) &&
    (forall k {:trigger Lookup(groups, k)} :: Lookup(groups, k).0 == Ends(g2, l2[..Min(i, |l2|)], outward, k)) &&
    (forall k {:trigger Lookup(groups, k)} :: Lookup(groups, k).1 == Ends(g1, l1[..Min(i, |l1|)], outward, k))
  }

  lemma {:induction false} WalkStep(groups: seq<Group>, g1: Graph, l1: seq<nat>, g2: Graph, l2: seq<nat>, i: nat, outward: bool)
    requires forall k :: 0 <= k < |l1| ==> l1[k] < |g1.es|
    requires forall k :: 0 <= k < |l2| ==> l2[k] < |g2.es|
    requires Walked(groups, g1, l1, g2, l2, i, outward)
    ensures Walked(File(File(groups, g2, l2, i, outward, true), g1, l1, i, outward, false), g1, l1, g2, l2, i + 1, outward)
  {
    FileStep(groups, g2, l2, i, outward, true);
    var mid := File(groups, g2, l2, i, outward, true);
    FileStep(mid, g1, l1, i, outward, false);
  }

  lemma {:induction false} GroupsAreEndpoints(g1: Graph, v1: nat, g2: Graph, v2: nat, outward: bool, groups: seq<Group>)
    requires DistinctKeys(groups)
    requires forall k :: Lookup(groups, k).0 == Endpoints(g2, v2, outward, k)
    requires forall k :: Lookup(groups, k).1 == Endpoints(g1, v1, outward, k)
    ensures forall k ::
      Lookup(groups, k) == (Endpoints(g2, v2, outward, k), Endpoints(g1, v1, outward, k))
    ensures forall i :: 0 <= i < |groups| ==>
      groups[i].e2 == Endpoints(g2, v2, outward, groups[i].key) &&
      groups[i].e1 == Endpoints(g1, v1, outward, groups[i].key)
    ensures forall i :: 0 <= i < |groups| ==>
      (forall x :: x in groups[i].e1 ==> 0 <= x < |g1.vs|) &&
      (forall x :: x in groups[i].e2 ==> 0 <= x < |g2.vs|)
  {
    forall j | 0 <= j < |groups|
      ensures groups[j].e2 == Endpoints(g2, v2, outward, groups[j].key)
      ensures groups[j].e1 == Endpoints(g1, v1, outward, groups[j].key)
      ensures forall x :: x in groups[j].e1 ==> 0 <= x < |g1.vs|
      ensures forall x :: x in groups[j].e2 ==> 0 <= x < |g2.vs|
    {
      LookupAt(groups, j);
      EndsBounded(g1, Incident(g1, v1, outward), outward, groups[j].key);
      EndsBounded(g2, Incident(g2, v2, outward), outward, groups[j].key);
    }
  }

  function Min(a: int, b: int): int
  {
    if a < b then a else b
  }

  // ---------------------------------------------------------------------
  // Mappings

  /** `m2` keeps every pair of `m1`. */
  predicate Extends(m2: map<int, int>, m1: map<int, int>)
  {
    forall k :: k in m1 ==> k in m2 && m2[k] == m1[k]
  }

  predicate Injective(m: map<int, int>)
  {
    forall a, b :: a in m && b in m && a != b ==> m[a] != m[b]
  }

  predicate IsValue(m: map<int, int>, x: int)
  {
    exists k :: k in m && m[k] == x
  }

  /**
   * Every pair of `m2` that `m1` does not have joins a design vertex and a
   * template vertex that pass `compare_ref`.
   */
  predicate NewPairsAgree(g1: Graph, g2: Graph, m2: map<int, int>, m1: map<int, int>)
  {
    forall k :: k in m2 && k !in m1 ==>
      0 <= k < |g1.vs| && 0 <= m2[k] < |g2.vs| && CompareRef(g1.vs[k], g2.vs[m2[k]])
  }

  /** Some candidate of `cands` is mapped to `x`. */
  predicate Hit(m: map<int, int>, cands: seq<int>, x: int)
  {
    exists k :: k in cands && k in m && m[k] == x
  }

  /**
   * Every non-port edge of template vertex `v2` (in the given direction)
   * is matched by an edge of design vertex `v1` with the same signature
   * whose far end is mapped to the template edge's far end.
   */
  predicate Matched(g1: Graph, v1: nat, g2: Graph, v2: nat, outward: bool, m: map<int, int>)
  {
    forall j :: 0 <= j < |Incident(g2, v2, outward)| && g2.es[Incident(g2, v2, outward)[j]].signal != Port ==>
      var e := g2.es[Incident(g2, v2, outward)[j]];
      Hit(m, Endpoints(g1, v1, outward, EdgeKey(e)), Far(e, outward))
  }

  /** Every edge at template vertex `v` is a port edge. */
  predicate OnlyPorts(g: Graph, v: nat)
  {
    (forall e :: e in Incident(g, v, false) ==> g.es[e].signal == Port) &&
    (forall e :: e in Incident(g, v, true) ==> g.es[e].signal == Port)
  }

  /** The design vertices the mapping does not cover yet. */
  function Unmapped(g1: Graph, m: map<int, int>): set<int>
  {
    set i | 0 <= i < |g1.vs| && i !in m
  }

  lemma {:induction false} UnmappedShrinks(g1: Graph, m: map<int, int>, m2: map<int, int>, k: int)
    requires Extends(m2, m)
    requires 0 <= k < |g1.vs| && k !in m && k in m2
    ensures |Unmapped(g1, m2)| < |Unmapped(g1, m)|
  {
    var a, b := Unmapped(g1, m2), Unmapped(g1, m);
    assert a <= b;
    var d := b - a;
    assert k in d;
    assert b == a + d && a * d == {};
  }

  lemma {:induction false} UnmappedMono(g1: Graph, m: map<int, int>, m2: map<int, int>)
    requires Extends(m2, m)
    ensures |Unmapped(g1, m2)| <= |Unmapped(g1, m)|
  {
    var a, b := Unmapped(g1, m2), Unmapped(g1, m);
    assert a <= b;
    assert b == a + (b - a) && a * (b - a) == {};
  }

  lemma {:induction false} ExtendsTrans(m3: map<int, int>, m2: map<int, int>, m1: map<int, int>)
    requires Extends(m3, m2) && Extends(m2, m1)
    ensures Extends(m3, m1)
  {
  }

  lemma {:induction false} AgreeTrans(g1: Graph, g2: Graph, m3: map<int, int>, m2: map<int, int>, m1: map<int, int>)
    requires Extends(m3, m2) && Extends(m2, m1)
    requires NewPairsAgree(g1, g2, m3, m2) && NewPairsAgree(g1, g2, m2, m1)
    ensures NewPairsAgree(g1, g2, m3, m1)
  {
  }

  // ---------------------------------------------------------------------
  // compare_vertex

  /**
   * `compare_vertex(mapping, g1, v1, g2, v2)`: `None` is the `False` the
   * source returns on failure. A constant driver is judged on its
   * reference alone; any other vertex must pass `compare_ref` and then
   * find, for every template in-edge signature and then every out-edge
   * signature, a design neighbour along an equally-labelled edge.
   */
  method CompareVertex(mapping: map<int, int>, g1: Graph, v1: nat, g2: Graph, v2: nat)
    returns (r: Option<map<int, int>>)
    requires v1 < |g1.vs| && v2 < |g2.vs|
    ensures IsConstantVertex(g1.vs[v1]) ==>
      r == if CompareRef(g1.vs[v1], g2.vs[v2]) then Some(mapping) else None
    ensures !CompareRef(g1.vs[v1], g2.vs[v2]) ==> r.None?
    ensures r.Some? ==> Extends(r.value, mapping)
    ensures r.Some? ==> NewPairsAgree(g1, g2, r.value, mapping)
    ensures r.Some? && Injective(mapping) ==> Injective(r.value)
    ensures r.Some? && !IsConstantVertex(g1.vs[v1]) ==>
      Matched(g1, v1, g2, v2, false, r.value) && Matched(g1, v1, g2, v2, true, r.value)
    ensures CompareRef(g1.vs[v1], g2.vs[v2]) && OnlyPorts(g2, v2) ==> r == Some(mapping)
    ensures !IsConstantVertex(g1.vs[v1]) && Stuck(g1, v1, g2, v2, mapping) ==> r.None?
    decreases |Unmapped(g1, mapping)|, 3
  {
    if IsConstantVertex(g1.vs[v1]) {
      if CompareRef(g1.vs[v1], g2.vs[v2]) {
        return Some(mapping);
      }
      return None;
    }
    if !CompareRef(g1.vs[v1], g2.vs[v2]) {
      return None;
    }
    var inGroups := GetEdgeDict(g1, v1, g2, v2, false);
    if OnlyPorts(g2, v2) {
      NoSignatureNoWork(g1, v1, g2, v2, false, inGroups);
    }
    var m1 := MatchGroups(mapping, g1, g2, inGroups, false);
    if m1.None? {
      return None;
    }
    var outGroups := GetEdgeDict(g1, v1, g2, v2, true);
    if OnlyPorts(g2, v2) {
      NoSignatureNoWork(g1, v1, g2, v2, true, outGroups);
    }
    UnmappedMono(g1, mapping, m1.value);
    var m2 := MatchGroups(m1.value, g1, g2, outGroups, true);
    if m2.None? {
      return None;
    }
    AgreeTrans(g1, g2, m2.value, m1.value, mapping);
    MatchedGrows(g1, v1, g2, v2, false, m1.value, m2.value, inGroups);
    MatchedGrows(g1, v1, g2, v2, true, m2.value, m2.value, outGroups);
    NotStuck(g1, v1, g2, v2, mapping, m2.value);
    return m2;
  }

  /** No design candidate of `cands` is free or already mapped to `x`. */
  predicate Blocked(m: map<int, int>, cands: seq<int>, x: int)
  {
    forall k :: k in cands ==> k in m && m[k] != x
  }

  /**
   * Some non-port template edge at `v2` has only blocked design
   * candidates under `m`: none at all with its signature, or only ones
   * already mapped elsewhere (a single such candidate among them).
   */
  predicate Stuck(g1: Graph, v1: nat, g2: Graph, v2: nat, m: map<int, int>)
  {
    exists outward: bool, j :: 0 <= j < |Incident(g2, v2, outward)| &&
      g2.es[Incident(g2, v2, outward)[j]].signal != Port &&
      Blocked(m, Endpoints(g1, v1, outward, EdgeKey(g2.es[Incident(g2, v2, outward)[j]])),
              Far(g2.es[Incident(g2, v2, outward)[j]], outward))
  }

  /** A mapping that matches both sides of `v2` and keeps `m` cannot start from a stuck `m`. */
  lemma NotStuck(g1: Graph, v1: nat, g2: Graph, v2: nat, m: map<int, int>, m2: map<int, int>)
    requires Extends(m2, m)
    requires Matched(g1, v1, g2, v2, false, m2) && Matched(g1, v1, g2, v2, true, m2)
    ensures !Stuck(g1, v1, g2, v2, m)
  {
    forall outward: bool, j | 0 <= j < |Incident(g2, v2, outward)| &&
        g2.es[Incident(g2, v2, outward)[j]].signal != Port
      ensures !Blocked(m, Endpoints(g1, v1, outward, EdgeKey(g2.es[Incident(g2, v2, outward)[j]])),
                       Far(g2.es[Incident(g2, v2, outward)[j]], outward))
    {
      var e := g2.es[Incident(g2, v2, outward)[j]];
      assert Matched(g1, v1, g2, v2, outward, m2);
      var k :| k in Endpoints(g1, v1, outward, EdgeKey(e)) && k in m2 && m2[k] == Far(e, outward);
      assert !(k in m && m[k] != Far(e, outward));
    }
  }

  /** Hits on the groups' lists, kept by a larger map, give `Matched`. */
  lemma {:induction false} MatchedGrows(g1: Graph, v1: nat, g2: Graph, v2: nat, outward: bool,
                     m: map<int, int>, m2: map<int, int>, groups: seq<Group>)
    requires Extends(m2, m)
    requires forall k ::
      Lookup(groups, k) == (Endpoints(g2, v2, outward, k), Endpoints(g1, v1, outward, k))
    requires forall i :: 0 <= i < |groups| ==>
      forall x :: x in groups[i].e2 ==> Hit(m, groups[i].e1, x)
    ensures Matched(g1, v1, g2, v2, outward, m2)
  {
    var l2 := Incident(g2, v2, outward);
    forall j | 0 <= j < |l2| && g2.es[l2[j]].signal != Port
      ensures Hit(m2, Endpoints(g1, v1, outward, EdgeKey(g2.es[l2[j]])), Far(g2.es[l2[j]], outward))
    {
      MatchedEdge(g1, v1, g2, v2, outward, m, m2, groups, j);
    }
  }

  lemma {:induction false} MatchedEdge(g1: Graph, v1: nat, g2: Graph, v2: nat, outward: bool,
                    m: map<int, int>, m2: map<int, int>, groups: seq<Group>, j: nat)
    requires Extends(m2, m)
    requires forall k ::
      Lookup(groups, k) == (Endpoints(g2, v2, outward, k), Endpoints(g1, v1, outward, k))
    requires forall i :: 0 <= i < |groups| ==>
      forall x :: x in groups[i].e2 ==> Hit(m, groups[i].e1, x)
    requires j < |Incident(g2, v2, outward)|
    requires g2.es[Incident(g2, v2, outward)[j]].signal != Port
    ensures var e := g2.es[Incident(g2, v2, outward)[j]];
      Hit(m2, Endpoints(g1, v1, outward, EdgeKey(e)), Far(e, outward))
  {
    var l2 := Incident(g2, v2, outward);
    var e := g2.es[l2[j]];
    var key := EdgeKey(e);
    EndsComplete(g2, l2, outward, j);
    assert Lookup(groups, key).0 == Endpoints(g2, v2, outward, key);
    var i := FindGroup(groups, key);
    assert Far(e, outward) as int in groups[i].e2;
    var k :| k in groups[i].e1 && k in m && m[k] == Far(e, outward);
    assert k in Endpoints(g1, v1, outward, key);
  }

  /** A key whose lookup is not empty belongs to a group. */
  lemma {:induction false} FindGroup(groups: seq<Group>, key: string) returns (i: nat)
    requires Lookup(groups, key) != ([], [])
    ensures i < |groups| && groups[i].key == key
    ensures Lookup(groups, key) == (groups[i].e2, groups[i].e1)
    decreases |groups|
  {
    if groups[0].key == key {
      i := 0;
    } else {
      var j := FindGroup(groups[1..], key);
      i := j + 1;
    }
  }

  /** Without non-port template edges every group's template list is empty. */
  lemma {:induction false} NoSignatureNoWork(g1: Graph, v1: nat, g2: Graph, v2: nat, outward: bool, groups: seq<Group>)
    requires forall k ::
      Lookup(groups, k) == (Endpoints(g2, v2, outward, k), Endpoints(g1, v1, outward, k))
    requires forall i :: 0 <= i < |groups| ==>
      groups[i].e2 == Endpoints(g2, v2, outward, groups[i].key)
    requires forall e :: e in Incident(g2, v2, outward) ==> g2.es[e].signal == Port
    ensures forall i :: 0 <= i < |groups| ==> groups[i].e2 == []
  {
    var l2 := Incident(g2, v2, outward);
    forall i | 0 <= i < |groups|
      ensures groups[i].e2 == []
    {
      EndsOfPortsOnly(g2, l2, outward, groups[i].key);
    }
  }

  /**
   * The walk over one dictionary: for every group, every template
   * neighbour in turn must be served by a design candidate of the group.
   */
  method MatchGroups(mapping: map<int, int>, g1: Graph, g2: Graph, groups: seq<Group>, outward: bool)
    returns (r: Option<map<int, int>>)
    requires forall i :: 0 <= i < |groups| ==>
      (forall x :: x in groups[i].e1 ==> 0 <= x < |g1.vs|) &&
      (forall x :: x in groups[i].e2 ==> 0 <= x < |g2.vs|)
    ensures r.Some? ==> Extends(r.value, mapping)
    ensures r.Some? ==> NewPairsAgree(g1, g2, r.value, mapping)
    ensures r.Some? && Injective(mapping) ==> Injective(r.value)
    ensures r.Some? ==> forall i :: 0 <= i < |groups| ==>
      forall x :: x in groups[i].e2 ==> Hit(r.value, groups[i].e1, x)
    ensures (forall i :: 0 <= i < |groups| ==> groups[i].e2 == []) ==> r == Some(mapping)
    decreases |Unmapped(g1, mapping)|, 2
  {
    var m := mapping;
    var gi := 0;
    while gi < |groups|
      invariant 0 <= gi <= |groups|
      invariant Extends(m, mapping) && NewPairsAgree(g1, g2, m, mapping)
      invariant Injective(mapping) ==> Injective(m)
      invariant forall i :: 0 <= i < gi ==> forall x :: x in groups[i].e2 ==> Hit(m, groups[i].e1, x)
      invariant (forall i :: 0 <= i < |groups| ==> groups[i].e2 == []) ==> m == mapping
    {
      var es1 := groups[gi].e1;
      var e2s := groups[gi].e2;
      var j := 0;
      while j < |e2s|
        invariant 0 <= j <= |e2s|
        invariant Extends(m, mapping) && NewPairsAgree(g1, g2, m, mapping)
        invariant Injective(mapping) ==> Injective(m)
        invariant forall x :: x in es1 ==> x in groups[gi].e1
        invariant forall i :: 0 <= i < gi ==> forall x :: x in groups[i].e2 ==> Hit(m, groups[i].e1, x)
        invariant forall jj :: 0 <= jj < j ==> Hit(m, groups[gi].e1, e2s[jj])
        invariant (forall i :: 0 <= i < |groups| ==> groups[i].e2 == []) ==> m == mapping
      {
        var m0 := m;
        assert 0 <= e2s[j] < |g2.vs| by { assert e2s[j] in groups[gi].e2; }
        var ok, next, rest := MatchTarget(mapping, m, g1, g2, es1, e2s[j], outward);
        if !ok {
          return None;
        }
        ExtendsTrans(next, m, mapping);
        AgreeTrans(g1, g2, next, m, mapping);
        m, es1 := next, rest;
        KeepHits(m0, m, groups, gi, e2s, j);
        j := j + 1;
      }
      assert forall x :: x in groups[gi].e2 ==> Hit(m, groups[gi].e1, x) by {
        forall x | x in groups[gi].e2
          ensures Hit(m, groups[gi].e1, x)
        {
          var jj :| 0 <= jj < |e2s| && e2s[jj] == x;
        }
      }
      gi := gi + 1;
    }
    return Some(m);
  }

  /** Hits recorded before a step survive a mapping that extends it. */
  lemma {:induction false} KeepHits(m0: map<int, int>, m: map<int, int>, groups: seq<Group>, gi: nat, e2s: seq<int>, j: nat)
    requires Extends(m, m0)
    requires gi < |groups| && j < |e2s|
    requires forall i :: 0 <= i < gi ==> forall x :: x in groups[i].e2 ==> Hit(m0, groups[i].e1, x)
    requires forall jj :: 0 <= jj < j ==> Hit(m0, groups[gi].e1, e2s[jj])
    requires Hit(m, groups[gi].e1, e2s[j])
    ensures forall i :: 0 <= i < gi ==> forall x :: x in groups[i].e2 ==> Hit(m, groups[i].e1, x)
    ensures forall jj :: 0 <= jj < j + 1 ==> Hit(m, groups[gi].e1, e2s[jj])
  {
    forall i, x | 0 <= i < gi && x in groups[i].e2
      ensures Hit(m, groups[i].e1, x)
    {
      var k :| k in groups[i].e1 && k in m0 && m0[k] == x;
    }
    forall jj | 0 <= jj < j
      ensures Hit(m, groups[gi].e1, e2s[jj])
    {
      assert Hit(m0, groups[gi].e1, e2s[jj]);
      var k :| k in groups[gi].e1 && k in m0 && m0[k] == e2s[jj];
    }
  }

  /** `list.remove(x)`: the first occurrence of `x` taken out. */
  function RemoveFirst(l: seq<int>, x: int): (r: seq<int>)
    requires x in l
    ensures multiset(r) == multiset(l) - multiset{x}
    ensures forall y :: y in r ==> y in l
  {
    var k := FirstIndex(l, x);
    var r := RemoveAt(l, k);
    assert forall y :: y in r ==> y in multiset(r);
    r
  }

  /**
   * The tentative pair `c -> x` and the recursive comparison of the two
   * vertices it joins; the pair is dropped again when the comparison
   * fails.
   */
  method TryCandidate(origin: map<int, int>, cur: map<int, int>, g1: Graph, g2: Graph, c: int, x: int)
    returns (t: Option<map<int, int>>)
    requires Extends(cur, origin)
    requires 0 <= c < |g1.vs| && c !in cur
    requires 0 <= x < |g2.vs| && !IsValue(cur, x)
    ensures t.Some? ==> Extends(t.value, cur) && NewPairsAgree(g1, g2, t.value, cur)
    ensures t.Some? ==> c in t.value && t.value[c] == x
    ensures t.Some? && Injective(cur) ==> Injective(t.value)
    decreases |Unmapped(g1, origin)|, 0
  {
    var trial := cur[c := x];
    assert c !in origin;
    assert Extends(trial, origin);
    UnmappedShrinks(g1, origin, trial, c);
    t := CompareVertex(trial, g1, c, g2, x);
    if t.Some? {
      assert trial[c] == x;
      assert Injective(cur) ==> Injective(trial);
      assert NewPairsAgree(g1, g2, t.value, cur) by {
        assert CompareRef(g1.vs[c], g2.vs[x]);
      }
    }
  }

  /**
   * One template neighbour `x` of a group whose current design
   * candidates are `es1`: a single candidate is tried alone (and is the
   * only way to fail on a mapped candidate); several are tried in order,
   * the first that works is kept. `ok` is false when the source returns
   * `False`; `rest` is the candidate list after the removals.
   */
  method MatchTarget(origin: map<int, int>, cur: map<int, int>, g1: Graph, g2: Graph,
                     es1: seq<int>, x: int, outward: bool)
    returns (ok: bool, next: map<int, int>, rest: seq<int>)
    requires Extends(cur, origin)
    requires forall y :: y in es1 ==> 0 <= y < |g1.vs|
    requires 0 <= x < |g2.vs|
    ensures ok ==> Extends(next, cur) && NewPairsAgree(g1, g2, next, cur)
    ensures ok && Injective(cur) ==> Injective(next)
    ensures ok ==> Hit(next, es1, x)
    ensures forall y :: y in rest ==> y in es1
    ensures ok ==> exists i :: Chose(es1, cur, next, rest, x, outward, i)
    ensures !ok ==> forall y :: y in es1 && y in cur ==> cur[y] != x
    ensures |es1| == 0 ==> !ok
    ensures |es1| == 1 && es1[0] in cur ==> (ok <==> cur[es1[0]] == x)
    ensures |es1| == 1 && es1[0] !in cur && IsValue(cur, x) ==> !ok
    decreases |Unmapped(g1, origin)|, 1
  {
    next, rest := cur, es1;
    if |es1| == 0 {
      return false, next, rest;
    }
    if |es1| == 1 {
      var c := es1[0];
      assert c in es1;
      if c !in cur {
        if IsValue(cur, x) {
          return false, next, rest;
        }
        var t := TryCandidate(origin, cur, g1, g2, c, x);
        if t.None? {
          return false, next, rest;
        }
        rest := RemoveFirst(es1, c);
        assert Chose(es1, cur, t.value, rest, x, outward, 0);
        return true, t.value, rest;
      } else {
        if cur[c] != x {
          return false, next, rest;
        }
        rest := RemoveFirst(es1, c);
        assert Chose(es1, cur, next, rest, x, outward, 0);
        return true, next, rest;
      }
    }
    var i := 0;
    while i < |es1|
      invariant 0 <= i <= |es1| && next == cur && rest == es1
      invariant forall j :: 0 <= j < i && es1[j] in cur ==> cur[es1[j]] != x
    {
      var c := es1[i];
      assert c in es1;
      if c !in cur {
        if !IsValue(cur, x) {
          var t := TryCandidate(origin, cur, g1, g2, c, x);
          if t.Some? {
            if outward {
              rest := RemoveFirst(es1, c);
            }
            assert Chose(es1, cur, t.value, rest, x, outward, i);
            return true, t.value, rest;
          }
        }
      } else if cur[c] == x {
        rest := RemoveFirst(es1, c);
        assert Chose(es1, cur, next, rest, x, outward, i);
        return true, next, rest;
      }
      i := i + 1;
    }
    return false, next, rest;
  }

  /**
   * Candidate `es1[i]` is the one `MatchTarget` settled on for `x`: no
   * earlier candidate was already mapped to `x`; an already-mapped
   * candidate leaves the mapping alone, a fresh one is only tried while
   * nothing maps to `x`; and the list loses that candidate, except a
   * fresh one among several on the in-edge side.
   */
  predicate Chose(es1: seq<int>, cur: map<int, int>, next: map<int, int>, rest: seq<int>, x: int, outward: bool, i: nat)
  {
    i < |es1| && es1[i] in next && next[es1[i]] == x &&
    (forall j :: 0 <= j < i && es1[j] in cur ==> cur[es1[j]] != x) &&
    (es1[i] in cur ==> next == cur && rest == RemoveFirst(es1, es1[i])) &&
    (es1[i] !in cur ==>
       !IsValue(cur, x) && rest == if outward || |es1| == 1 then RemoveFirst(es1, es1[i]) else es1)
  }
}
