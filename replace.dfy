// Splicing templates into a skeleton graph, the replacement step of the
// hierarchical search (the IP_Search methods of src/search_lib.py and the
// same functions at the top level of search_lib.py), with the
// neighbourhood, mapping-refresh and constant-labelling steps around it.
//
// A graph is a value here: every caller of `replace_hier_cell` hands it a
// copy (`g_template.copy()`), so the in-place edits become a method that
// returns the edited graph.

module Replace {

  import opened Wrappers
  import opened Netlist
  import opened Matcher

  /** `"descend"` splices a template into a hierarchical cell; `"ascend"` splices the skeleton into a containing template. */
  datatype Direction = Descend | Ascend

  // ---------------------------------------------------------------------
  // Port pins

  /** Edge `e` leaves `v` (outward) or enters it. */
  predicate At(e: Edge, v: nat, outward: bool)
  {
    if outward then e.src == v else e.dst == v
  }

  /** The pin a template root's edge has at the root: output pin when it leaves, input pin when it enters. */
  function TopPin(e: Edge, outward: bool): string
  {
    if outward then e.outPin else e.inPin
  }

  /**
   * The pin of an edge of the replaced cell that must equal a root pin:
   * a root out-edge pairs with an edge into the cell on the same input
   * pin, a root in-edge with an edge out of it on the same output pin.
   */
  function CellPin(e: Edge, outward: bool): string
  {
    if outward then e.inPin else e.outPin
  }

  /** Vertex `v` has an edge on the cell side of `outward` whose pin is `pin`. */
  predicate HasPin(g: Graph, v: nat, pin: string, outward: bool)
  {
    exists e :: 0 <= e < |g.es| && At(g.es[e], v, !outward) && CellPin(g.es[e], outward) == pin
  }

  /** Every edge of `t` at `top` in direction `outward` finds its pin on `v` in `g`. */
  predicate Fits(g: Graph, v: nat, t: Graph, top: nat, outward: bool)
  {
    forall e :: 0 <= e < |t.es| && At(t.es[e], top, outward) ==> HasPin(g, v, TopPin(t.es[e], outward), outward)
  }

  /** The port rule: the root of `hier` can stand in for vertex `v` of `g`. */
  predicate PortsFit(g: Graph, v: nat, hier: Graph)
  {
    Fits(g, v, hier, 0, true) && Fits(g, v, hier, 0, false)
  }

  /** Every edge at `v` in direction `outward` is listed by `Incident`. */
  lemma IncidentComplete(g: Graph, v: nat, outward: bool, e: nat)
    requires WellFormed(g) && e < |g.es| && At(g.es[e], v, outward)
    ensures e in Incident(g, v, outward)
  {
    if outward {
      OutEdgesComplete(g, v, e);
    } else {
      InEdgesComplete(g, v, e);
    }
  }

  /** The edges of list `l` whose cell-side pin is `pin`, in order. */
  function Filtered(g: Graph, l: seq<nat>, pin: string, outward: bool): (r: seq<nat>)
    requires forall k :: 0 <= k < |l| ==> l[k] < |g.es|
    ensures forall k :: 0 <= k < |r| ==> r[k] in l && CellPin(g.es[r[k]], outward) == pin
  {
    if |l| == 0 then []
    else
      Filtered(g, l[..|l| - 1], pin, outward) +
        (if CellPin(g.es[l[|l| - 1]], outward) == pin then [l[|l| - 1]] else [])
  }

  lemma {:induction false} FilteredComplete(g: Graph, l: seq<nat>, pin: string, outward: bool, x: nat)
    requires forall k :: 0 <= k < |l| ==> l[k] < |g.es|
    requires x in l && CellPin(g.es[x], outward) == pin
    ensures x in Filtered(g, l, pin, outward)
  {
    if l[|l| - 1] != x {
      assert x in l[..|l| - 1];
      FilteredComplete(g, l[..|l| - 1], pin, outward, x);
    }
  }

  /**
   * The list `es1` the splice builds: the cell's edges on the opposite
   * side (`v1.in_edges()` for a root out-edge, `v1.out_edges()` for a
   * root in-edge) whose pin is `pin`.
   */
  function Pinned(g: Graph, v: nat, pin: string, outward: bool): (r: seq<nat>)
    ensures forall k :: 0 <= k < |r| ==>
      r[k] < |g.es| && At(g.es[r[k]], v, !outward) && CellPin(g.es[r[k]], outward) == pin
  {
    var l := Incident(g, v, !outward);
    assert forall k :: 0 <= k < |l| ==> At(g.es[l[k]], v, !outward);
    Filtered(g, l, pin, outward)
  }

  /** `es1` is empty exactly when the cell has no edge on that pin. */
  lemma PinnedMeaning(g: Graph, v: nat, pin: string, outward: bool)
    requires WellFormed(g)
    ensures |Pinned(g, v, pin, outward)| > 0 <==> HasPin(g, v, pin, outward)
  {
    var r := Pinned(g, v, pin, outward);
    if |r| > 0 {
      assert At(g.es[r[0]], v, !outward) && CellPin(g.es[r[0]], outward) == pin;
    }
    if HasPin(g, v, pin, outward) {
      var e :| 0 <= e < |g.es| && At(g.es[e], v, !outward) && CellPin(g.es[e], outward) == pin;
      PinnedComplete(g, v, pin, outward, e);
    }
  }

  /** Every edge of the cell on the opposite side with pin `pin` is in `es1`. */
  lemma PinnedComplete(g: Graph, v: nat, pin: string, outward: bool, e: nat)
    requires WellFormed(g) && e < |g.es| && At(g.es[e], v, !outward) && CellPin(g.es[e], outward) == pin
    ensures e in Pinned(g, v, pin, outward)
  {
    IncidentComplete(g, v, !outward, e);
    FilteredComplete(g, Incident(g, v, !outward), pin, outward, e);
  }

  /** An edge of `g` on a pin stays an edge of any graph that extends `g`'s edge list. */
  lemma HasPinGrows(g: Graph, r: Graph, v: nat, pin: string, outward: bool)
    requires |g.es| <= |r.es| && r.es[..|g.es|] == g.es
    requires HasPin(g, v, pin, outward)
    ensures HasPin(r, v, pin, outward)
  {
    var e :| 0 <= e < |g.es| && At(g.es[e], v, !outward) && CellPin(g.es[e], outward) == pin;
    assert r.es[e] == g.es[e];
  }

  /** One side of `replace_pre_check`: every root edge on that side finds its pin. */
  method SideFits(g: Graph, v: nat, t: Graph, top: nat, outward: bool) returns (ok: bool)
    requires WellFormed(g) && WellFormed(t)
    ensures ok <==> Fits(g, v, t, top, outward)
  {
    var edges := Incident(t, top, outward);
    for k := 0 to |edges|
      invariant forall j :: 0 <= j < k ==> HasPin(g, v, TopPin(t.es[edges[j]], outward), outward)
    {
      var es1 := Pinned(g, v, TopPin(t.es[edges[k]], outward), outward);
      PinnedMeaning(g, v, TopPin(t.es[edges[k]], outward), outward);
      if |es1| == 0 {
        assert At(t.es[edges[k]], top, outward);
        return false;
      }
    }
    FitsFromIncident(g, v, t, top, outward);
    return true;
  }

  /** The port rule on one side holds once every incident edge of `top` has its pin on `v`. */
  lemma FitsFromIncident(g: Graph, v: nat, t: Graph, top: nat, outward: bool)
    requires WellFormed(t)
    requires forall j :: 0 <= j < |Incident(t, top, outward)| ==>
      HasPin(g, v, TopPin(t.es[Incident(t, top, outward)[j]], outward), outward)
    ensures Fits(g, v, t, top, outward)
  {
    var edges := Incident(t, top, outward);
    forall e | 0 <= e < |t.es| && At(t.es[e], top, outward)
      ensures HasPin(g, v, TopPin(t.es[e], outward), outward)
    {
      IncidentComplete(t, top, outward, e);
      var j :| 0 <= j < |edges| && edges[j] == e;
    }
  }

  /**
   * `replace_pre_check(g, v1_id, g_hier)`: true (the source's 1) rejects
   * the splice, exactly when some edge of the template root finds no edge
   * of `v1` on the matching pin.
   */
  method ReplacePreCheck(g: Graph, v1: nat, hier: Graph) returns (reject: bool)
    requires WellFormed(g) && WellFormed(hier)
    ensures reject <==> !PortsFit(g, v1, hier)
  {
    var outFit := SideFits(g, v1, hier, 0, true);
    if !outFit {
      return true;
    }
    var inFit := SideFits(g, v1, hier, 0, false);
    return !inFit;
  }

  // ---------------------------------------------------------------------
  // Copying the template in

  /** Some vertex of `vs` carries `id`. */
  predicate HasId(vs: seq<Vertex>, id: int)
  {
    exists j :: 0 <= j < |vs| && vs[j].id == id
  }

  /** The last vertex of `vs` that carries `id`. */
  function LastWithId(vs: seq<Vertex>, id: int): (r: nat)
    requires HasId(vs, id)
    ensures r < |vs| && vs[r].id == id
    ensures forall k :: r < k < |vs| ==> vs[k].id != id
  {
    if vs[|vs| - 1].id == id then |vs| - 1
    else
      assert HasId(vs[..|vs| - 1], id) by {
        var j :| 0 <= j < |vs| && vs[j].id == id;
        assert vs[..|vs| - 1][j] == vs[j];
      }
      LastWithId(vs[..|vs| - 1], id)
  }

  /** `[from, from + 1, ..., from + count - 1]`. */
  function Range(from: nat, count: nat): (r: seq<nat>)
    ensures |r| == count && forall k :: 0 <= k < count ==> r[k] == from + k
  {
    seq(count, k requires 0 <= k < count => from + k)
  }

  /**
   * A template vertex as the splice places it at index `i`: `id` becomes
   * the index, and a descend prefixes the name with the replaced cell's
   * name and "/".
   */
  function Placed(v: Vertex, i: nat, dir: Direction, prefix: string): Vertex
  {
    if dir == Descend then v.(id := i, name := prefix + "/" + v.name) else v.(id := i)
  }

  /**
   * The state of the vertex loop of `replace_hier_cell` after `j` template
   * vertices: they are appended, placed; descending, the target is `v1`
   * and the new indices are recorded; ascending, `found` says whether a
   * vertex with id `v1` was met, `target` is where the last one landed,
   * and a 0 is recorded once it is met.
   */
  ghost predicate Copying(g: Graph, hier: Graph, v1: nat, dir: Direction, prefix: string, j: nat,
                          vs: seq<Vertex>, target: nat, added: seq<nat>, found: bool)
  {
    var n := |g.vs|;
    j <= |hier.vs| && |vs| == n + j && vs[..n] == g.vs &&
    (forall k :: 0 <= k < j ==> vs[n + k] == Placed(hier.vs[k], n + k, dir, prefix)) &&
    (dir == Descend ==> target == v1 && added == Range(n, j)) &&
    (dir == Ascend && found ==>
      n <= target < n + j && hier.vs[target - n].id == v1 &&
      forall k :: target - n < k < j ==> hier.vs[k].id != v1) &&
    (dir == Ascend && !found ==> forall k :: 0 <= k < j ==> hier.vs[k].id != v1) &&
    (dir == Ascend ==> forall x :: x in added <==> (found && x == 0) || n <= x < n + j) &&
    (forall x :: x in added ==> x < n + j)
  }

  /** One template vertex of the vertex loop of `replace_hier_cell`. */
  method CopyOne(g: Graph, hier: Graph, v1: nat, dir: Direction, prefix: string, j: nat,
                 vs: seq<Vertex>, target: nat, added: seq<nat>, ghost found: bool)
    returns (vs': seq<Vertex>, target': nat, added': seq<nat>, ghost found': bool)
    requires j < |hier.vs| && Copying(g, hier, v1, dir, prefix, j, vs, target, added, found)
    ensures Copying(g, hier, v1, dir, prefix, j + 1, vs', target', added', found')
    ensures vs' == vs + [Placed(hier.vs[j], |g.vs| + j, dir, prefix)]
    ensures target' == if dir == Ascend && hier.vs[j].id == v1 then |g.vs| + j else target
    ensures |added'| > |added| && added'[..|added|] == added && added'[|added'| - 1] == |g.vs| + j
  {
    var n := |g.vs|;
    target', added', found' := target, added, found;
    if dir == Ascend && hier.vs[j].id == v1 {
      target' := n + j;
      added' := added' + [0];
      found' := true;
    }
    vs' := vs + [Placed(hier.vs[j], n + j, dir, prefix)];
    assert vs'[..n] == vs[..n];
    added' := added' + [n + j];
  }

  /** Once every template vertex is seen, the one found with id `v1` is the last. */
  lemma LastFound(vs: seq<Vertex>, v1: nat, t: int, found: bool)
    requires HasId(vs, v1)
    requires found ==> 0 <= t < |vs| && vs[t].id == v1 && forall k :: t < k < |vs| ==> vs[k].id != v1
    requires !found ==> forall k :: 0 <= k < |vs| ==> vs[k].id != v1
    ensures found && t == LastWithId(vs, v1)
  {
    var last := LastWithId(vs, v1);
  }

  /**
   * The vertex loop of `replace_hier_cell`: appends every template vertex
   * and records the new indices. Ascending, it also finds where the
   * template vertex with id `v1` landed and records a 0 before it. This
   * compares each id with the original `v1`; see `ChasedTarget` for the
   * loop as written.
   */
  method CopyVertices(g: Graph, hier: Graph, v1: nat, dir: Direction, prefix: string)
    returns (vs: seq<Vertex>, target: nat, added: seq<nat>)
    requires dir == Ascend ==> HasId(hier.vs, v1)
    ensures |vs| == |g.vs| + |hier.vs| && vs[..|g.vs|] == g.vs
    ensures forall j :: 0 <= j < |hier.vs| ==> vs[|g.vs| + j] == Placed(hier.vs[j], |g.vs| + j, dir, prefix)
    ensures dir == Descend ==> target == v1 && added == Range(|g.vs|, |hier.vs|)
    ensures dir == Ascend ==> target == |g.vs| + LastWithId(hier.vs, v1)
    ensures dir == Ascend ==> forall x :: x in added <==> x == 0 || |g.vs| <= x < |vs|
    ensures forall x :: x in added ==> x < |vs|
  {
    vs, target, added := g.vs, v1, [];
    ghost var found := false;
    for j := 0 to |hier.vs|
      invariant Copying(g, hier, v1, dir, prefix, j, vs, target, added, found)
    {
      vs, target, added, found := CopyOne(g, hier, v1, dir, prefix, j, vs, target, added, found);
    }
    if dir == Ascend {
      LastFound(hier.vs, v1, target - |g.vs|, found);
    }
  }

  /**
   * The ascend loop as written: it compares each template vertex's id
   * with the *current* value of `v1_id`, which it has already overwritten
   * with a new index, so the search goes on from there.
   */
  function ChasedTarget(ids: seq<int>, n: nat, v1: int): int
  {
    if |ids| == 0 then v1
    else
      var t := ChasedTarget(ids[..|ids| - 1], n, v1);
      if ids[|ids| - 1] == t then n + |ids| - 1 else t
  }

  /**
   * A two-vertex skeleton lifted into a four-vertex template whose ids are
   * its indices, at template vertex 1: the vertex meant is index 2 + 1,
   * but the loop as written moves on to index 2 + 3.
   */
  lemma ChasedTargetOvershoots()
    ensures ChasedTarget([0, 1, 2, 3], 2, 1) == 5
    ensures ChasedTarget([0, 1, 2, 3], 2, 1) != 2 + 1
  {
    assert [0, 1, 2, 3][..3] == [0, 1, 2];
    assert [0, 1, 2][..2] == [0, 1];
    assert [0, 1][..1] == [0];
    assert [0][..0] == [];
  }

  /** The template's edges, renumbered to the indices its vertices got. */
  function Shifted(es: seq<Edge>, n: nat): (r: seq<Edge>)
    ensures |r| == |es|
    ensures forall k :: 0 <= k < |es| ==> r[k] == es[k].(src := es[k].src + n, dst := es[k].dst + n)
  {
    seq(|es|, k requires 0 <= k < |es| => es[k].(src := es[k].src + n, dst := es[k].dst + n))
  }

  /**
   * The graph the two copy loops of `replace_hier_cell` build: `g`, then
   * every template vertex placed at index `|g.vs| + j`, then the
   * template's edges renumbered to those indices.
   */
  function Expanded(g: Graph, hier: Graph, dir: Direction, prefix: string): (r: Graph)
    requires WellFormed(g) && WellFormed(hier)
    ensures WellFormed(r) && |r.vs| == |g.vs| + |hier.vs|
  {
    var n := |g.vs|;
    var r := Graph(g.vs + seq(|hier.vs|, j requires 0 <= j < |hier.vs| => Placed(hier.vs[j], n + j, dir, prefix)),
                   g.es + Shifted(hier.es, n));
    assert WellFormed(r) by {
      forall e | 0 <= e < |r.es| ensures r.es[e].src < |r.vs| && r.es[e].dst < |r.vs| {
        CopiedEdge(g, hier, r.es, e);
      }
    }
    r
  }

  /** The vertex and edge lists of the copy loops make up `Expanded`. */
  lemma ExpandedCopy(g: Graph, hier: Graph, dir: Direction, prefix: string, vs: seq<Vertex>, es: seq<Edge>)
    requires WellFormed(g) && WellFormed(hier)
    requires |vs| == |g.vs| + |hier.vs| && vs[..|g.vs|] == g.vs
    requires forall j :: 0 <= j < |hier.vs| ==> vs[|g.vs| + j] == Placed(hier.vs[j], |g.vs| + j, dir, prefix)
    requires es == g.es + Shifted(hier.es, |g.vs|)
    ensures Graph(vs, es) == Expanded(g, hier, dir, prefix)
  {
    var x := Expanded(g, hier, dir, prefix);
    forall i | 0 <= i < |vs| ensures vs[i] == x.vs[i] {
      if i < |g.vs| {
        assert vs[i] == vs[..|g.vs|][i];
      } else {
        assert vs[|g.vs| + (i - |g.vs|)] == Placed(hier.vs[i - |g.vs|], i, dir, prefix);
      }
    }
  }

  /** The graph of the copy loops is well formed, and keeps the ids equal to the indices. */
  lemma CopiedGraph(g: Graph, hier: Graph, dir: Direction, prefix: string, vs: seq<Vertex>, es: seq<Edge>)
    requires WellFormed(g) && WellFormed(hier)
    requires |vs| == |g.vs| + |hier.vs| && vs[..|g.vs|] == g.vs
    requires forall j :: 0 <= j < |hier.vs| ==> vs[|g.vs| + j] == Placed(hier.vs[j], |g.vs| + j, dir, prefix)
    requires es == g.es + Shifted(hier.es, |g.vs|)
    ensures WellFormed(Graph(vs, es))
    ensures IdsAreIndices(g) ==> IdsAreIndices(Graph(vs, es))
  {
    var n := |g.vs|;
    forall e | 0 <= e < |es| ensures es[e].src < |vs| && es[e].dst < |vs| {
      CopiedEdge(g, hier, es, e);
    }
    if IdsAreIndices(g) {
      forall i | 0 <= i < |vs| ensures vs[i].id == i {
        if i < n {
          assert vs[i] == vs[..n][i];
        } else {
          assert vs[n + (i - n)] == Placed(hier.vs[i - n], i, dir, prefix);
        }
      }
    }
  }

  /** The edge loop of `replace_hier_cell`: every template edge, between the copies. */
  method CopyEdges(es: seq<Edge>, hier: Graph, n: nat) returns (r: seq<Edge>)
    requires WellFormed(hier)
    ensures r == es + Shifted(hier.es, n)
  {
    r := es;
    for k := 0 to |hier.es|
      invariant r == es + Shifted(hier.es[..k], n)
    {
      assert hier.es[..k + 1] == hier.es[..k] + [hier.es[k]];
      r := r + [hier.es[k].(src := hier.es[k].src + n, dst := hier.es[k].dst + n)];
    }
    assert hier.es[..|hier.es|] == hier.es;
  }

  // ---------------------------------------------------------------------
  // Rewiring the boundary

  /**
   * The signal class a rewired edge from `s` to `t` gets: "port" when
   * either end is hierarchical, CONST1/CONST0 from a VCC/GND driver,
   * otherwise "primitive".
   */
  function Classify(vs: seq<Vertex>, s: nat, t: nat): Signal
    requires s < |vs| && t < |vs|
  {
    if vs[s].color == Green || vs[t].color == Green then Port
    else if vs[s].ref == "VCC" then Const1
    else if vs[s].ref == "GND" then Const0
    else Primitive
  }

  /**
   * The edge added for root edge `a` and cell edge `b` with matching pins:
   * it bypasses both, from `b`'s driver to `a`'s load (root out-edge) or
   * from `a`'s driver to `b`'s load (root in-edge), named after `a`.
   */
  function Link(g: Graph, a: nat, b: nat, outward: bool): Edge
    requires WellFormed(g) && a < |g.es| && b < |g.es|
  {
    var ea, eb := g.es[a], g.es[b];
    if outward then
      Edge(eb.src, ea.dst, ea.name, ea.parent, ea.inPin, eb.outPin, Classify(g.vs, eb.src, ea.dst))
    else
      Edge(ea.src, eb.dst, ea.name, ea.parent, eb.inPin, ea.outPin, Classify(g.vs, ea.src, eb.dst))
  }

  /** `e` is the edge added for root edge `a` at `top` and cell edge `b` at `v1`. */
  predicate Linked(g: Graph, v1: nat, top: nat, outward: bool, e: Edge, a: nat, b: nat)
    requires WellFormed(g)
  {
    a < |g.es| && b < |g.es| && At(g.es[a], top, outward) && At(g.es[b], v1, !outward) &&
    CellPin(g.es[b], outward) == TopPin(g.es[a], outward) && e == Link(g, a, b, outward)
  }

  /** `e` is a bypass edge for one of the first `n0` edges of `g` at `top`. */
  ghost predicate Bypass(g: Graph, n0: nat, v1: nat, top: nat, outward: bool, e: Edge)
    requires WellFormed(g)
  {
    exists a: nat, b: nat :: a < n0 && Linked(g, v1, top, outward, e, a, b)
  }

  /** No root edge on this side leads straight to `v1`. */
  predicate NoDirect(g: Graph, v1: nat, top: nat, outward: bool)
  {
    forall e :: 0 <= e < |g.es| && At(g.es[e], top, outward) ==> !At(g.es[e], v1, !outward)
  }

  lemma LinkedGrows(g: Graph, r: Graph, v1: nat, top: nat, outward: bool, e: Edge, a: nat, b: nat)
    requires WellFormed(g) && WellFormed(r) && r.vs == g.vs
    requires |g.es| <= |r.es| && r.es[..|g.es|] == g.es
    requires Linked(g, v1, top, outward, e, a, b)
    ensures Linked(r, v1, top, outward, e, a, b)
  {
    assert r.es[a] == g.es[a] && r.es[b] == g.es[b];
  }

  /** Bypass edges stay bypass edges when more edges are appended. */
  lemma BypassGrows(g: Graph, r: Graph, n0: nat, v1: nat, top: nat, outward: bool)
    requires WellFormed(g) && WellFormed(r) && r.vs == g.vs
    requires |g.es| <= |r.es| && r.es[..|g.es|] == g.es
    requires forall e :: n0 <= e < |g.es| ==> Bypass(g, n0, v1, top, outward, g.es[e])
    ensures forall e :: n0 <= e < |g.es| ==> Bypass(r, n0, v1, top, outward, r.es[e])
  {
    forall e | n0 <= e < |g.es|
      ensures Bypass(r, n0, v1, top, outward, r.es[e])
    {
      var a: nat, b: nat :| a < n0 && Linked(g, v1, top, outward, g.es[e], a, b);
      assert r.es[e] == g.es[e];
      LinkedGrows(g, r, v1, top, outward, g.es[e], a, b);
    }
  }

  /** The bypass edges for root edge `a` and each cell edge of `bs`, in the order of `bs`. */
  function Links(g: Graph, a: nat, bs: seq<nat>, outward: bool): seq<Edge>
    requires WellFormed(g) && a < |g.es| && forall k :: 0 <= k < |bs| ==> bs[k] < |g.es|
  {
    seq(|bs|, k requires 0 <= k < |bs| => Link(g, a, bs[k], outward))
  }

  /**
   * The inner loop of one rewiring step: a bypass edge for root edge `a`
   * and each cell edge of `es1`, appended in order.
   */
  method AddBypasses(g: Graph, n0: nat, v1: nat, top: nat, outward: bool, a: nat, es1: seq<nat>)
    returns (r: Graph)
    requires WellFormed(g) && a < n0 <= |g.es| && At(g.es[a], top, outward)
    requires forall k :: 0 <= k < |es1| ==>
      es1[k] < |g.es| && At(g.es[es1[k]], v1, !outward) && CellPin(g.es[es1[k]], outward) == TopPin(g.es[a], outward)
    requires forall e :: n0 <= e < |g.es| ==> Bypass(g, n0, v1, top, outward, g.es[e])
    ensures r.vs == g.vs && WellFormed(r)
    ensures r.es == g.es + Links(g, a, es1, outward)
    ensures forall e :: n0 <= e < |r.es| ==> Bypass(r, n0, v1, top, outward, r.es[e])
  {
    r := g;
    for l := 0 to |es1|
      invariant Bypassing(g, n0, v1, top, outward, a, es1, l, r)
    {
      var e := Link(r, a, es1[l], outward);
      var r' := r.(es := r.es + [e]);
      BypassingStep(g, n0, v1, top, outward, a, es1, l, r, r');
      r := r';
    }
    assert es1[..|es1|] == es1;
  }

  /** The loop state of `AddBypasses` after the first `l` cell edges. */
  ghost predicate Bypassing(g: Graph, n0: nat, v1: nat, top: nat, outward: bool, a: nat, es1: seq<nat>, l: nat, r: Graph)
  {
    WellFormed(g) && a < n0 <= |g.es| && l <= |es1| &&
    (forall k :: 0 <= k < |es1| ==> es1[k] < |g.es|) &&
    r.vs == g.vs && WellFormed(r) &&
    r.es == g.es + Links(g, a, es1[..l], outward) &&
    forall e :: n0 <= e < |r.es| ==> Bypass(r, n0, v1, top, outward, r.es[e])
  }

  /** Appending the bypass for cell edge `l` moves the loop state of `AddBypasses` on by one. */
  lemma BypassingStep(g: Graph, n0: nat, v1: nat, top: nat, outward: bool, a: nat, es1: seq<nat>, l: nat,
                      r: Graph, r': Graph)
    requires Bypassing(g, n0, v1, top, outward, a, es1, l, r) && l < |es1| && At(g.es[a], top, outward)
    requires At(g.es[es1[l]], v1, !outward) && CellPin(g.es[es1[l]], outward) == TopPin(g.es[a], outward)
    requires r' == r.(es := r.es + [Link(r, a, es1[l], outward)])
    ensures Bypassing(g, n0, v1, top, outward, a, es1, l + 1, r')
  {
    var b := es1[l];
    assert r.es[a] == g.es[a] && r.es[b] == g.es[b];
    assert Link(r, a, b, outward) == Link(g, a, b, outward);
    LinksSnoc(g, a, es1, l, outward);
    AppendBypass(r, r', n0, v1, top, outward, a, b);
  }

  /** The bypass edges for a prefix one longer end with the bypass for the next cell edge. */
  lemma LinksSnoc(g: Graph, a: nat, bs: seq<nat>, l: nat, outward: bool)
    requires WellFormed(g) && a < |g.es| && l < |bs| && forall k :: 0 <= k < |bs| ==> bs[k] < |g.es|
    ensures Links(g, a, bs[..l + 1], outward) == Links(g, a, bs[..l], outward) + [Link(g, a, bs[l], outward)]
  {
  }

  /** Appending one bypass edge keeps the graph well formed and every edge from `n0` on a bypass. */
  lemma AppendBypass(r: Graph, r': Graph, n0: nat, v1: nat, top: nat, outward: bool, a: nat, b: nat)
    requires WellFormed(r) && a < n0 <= |r.es| && b < |r.es|
    requires At(r.es[a], top, outward) && At(r.es[b], v1, !outward) && CellPin(r.es[b], outward) == TopPin(r.es[a], outward)
    requires forall e :: n0 <= e < |r.es| ==> Bypass(r, n0, v1, top, outward, r.es[e])
    requires r' == r.(es := r.es + [Link(r, a, b, outward)])
    ensures WellFormed(r') && forall e :: n0 <= e < |r'.es| ==> Bypass(r', n0, v1, top, outward, r'.es[e])
  {
    var e := Link(r, a, b, outward);
    assert r'.es[..|r.es|] == r.es;
    BypassGrows(r, r', n0, v1, top, outward);
    assert Linked(r, v1, top, outward, e, a, b);
    LinkedGrows(r, r', v1, top, outward, e, a, b);
    assert r'.es[|r.es|] == e;
  }

  /**
   * One rewiring loop of `replace_hier_cell`: for each root edge on this
   * side, in igraph order, every edge of `v1` on the matching pin (looked
   * up in the graph as it is by then) gets a bypass edge; a root edge
   * with none stops the loop with failure.
   */
  method Rewire(g: Graph, v1: nat, top: nat, outward: bool) returns (r: Graph, ok: bool)
    requires WellFormed(g)
    ensures ok ==> r == Rewired(g, v1, top, outward, |Incident(g, top, outward)|)
    ensures !ok ==> exists k: nat :: k < |Incident(g, top, outward)| && r == Rewired(g, v1, top, outward, k) &&
                                     !HasPin(r, v1, TopPin(g.es[Incident(g, top, outward)[k]], outward), outward)
    ensures r.vs == g.vs && WellFormed(r)
    ensures |g.es| <= |r.es| && r.es[..|g.es|] == g.es
    ensures forall e :: |g.es| <= e < |r.es| ==> Bypass(r, |g.es|, v1, top, outward, r.es[e])
    ensures Fits(g, v1, g, top, outward) ==> ok
    ensures NoDirect(g, v1, top, outward) && ok ==> Fits(g, v1, g, top, outward)
  {
    var edges := Incident(g, top, outward);
    r := g;
    for k := 0 to |edges|
      invariant Rewiring(g, r, v1, top, outward, k)
    {
      var found;
      ghost var r0 := r;
      r, found := RewireOne(g, r, v1, top, outward, k);
      if !found {
        assert r == Rewired(g, v1, top, outward, k);
        return r, false;
      }
    }
    ok := true;
    if NoDirect(g, v1, top, outward) {
      RewiredFits(g, r, v1, top, outward);
    }
  }

  /**
   * The graph after the first `k` root edges of one rewiring loop: each
   * appends a bypass for every cell edge on its pin, the cell's edges
   * being looked up in the graph as it is by then.
   */
  function Rewired(g: Graph, v1: nat, top: nat, outward: bool, k: nat): (r: Graph)
    requires WellFormed(g) && k <= |Incident(g, top, outward)|
    ensures r.vs == g.vs && WellFormed(r) && |g.es| <= |r.es| && r.es[..|g.es|] == g.es
  {
    if k == 0 then g
    else
      var r := Rewired(g, v1, top, outward, k - 1);
      var a := Incident(g, top, outward)[k - 1];
      assert r.es[a] == g.es[a];
      var r' := r.(es := r.es + Links(r, a, Pinned(r, v1, TopPin(g.es[a], outward), outward), outward));
      AppendLinks(r, a, Pinned(r, v1, TopPin(g.es[a], outward), outward), outward);
      PrefixOfPrefix(g.es, r.es, r'.es);
      r'
  }

  /** Appending bypass edges keeps the graph well formed and the old edges where they were. */
  lemma AppendLinks(r: Graph, a: nat, bs: seq<nat>, outward: bool)
    requires WellFormed(r) && a < |r.es| && forall k :: 0 <= k < |bs| ==> bs[k] < |r.es|
    ensures var r' := r.(es := r.es + Links(r, a, bs, outward));
      WellFormed(r') && r'.es[..|r.es|] == r.es
  {
    var r' := r.(es := r.es + Links(r, a, bs, outward));
    forall e | 0 <= e < |r'.es| ensures r'.es[e].src < |r'.vs| && r'.es[e].dst < |r'.vs| {
      if e >= |r.es| {
        assert r'.es[e] == Link(r, a, bs[e - |r.es|], outward);
      }
    }
    assert r'.es[..|r.es|] == r.es;
  }

  /**
   * Completeness of one rewiring loop: for every root edge among the
   * first `k` and every cell edge of `g` on its pin, the bypass edge is
   * in the rewired graph.
   */
  lemma {:induction false} RewiredLinks(g: Graph, v1: nat, top: nat, outward: bool, k: nat, e: Edge, a: nat, b: nat)
    requires WellFormed(g) && k <= |Incident(g, top, outward)|
    requires a in Incident(g, top, outward)[..k] && Linked(g, v1, top, outward, e, a, b)
    ensures e in Rewired(g, v1, top, outward, k).es
  {
    var l := Incident(g, top, outward);
    assert l[..k] == l[..k - 1] + [l[k - 1]];
    RewiredUnfold(g, v1, top, outward, k);
    if a == l[k - 1] {
      NewLink(g, v1, top, outward, k, e, a, b);
    } else {
      RewiredLinks(g, v1, top, outward, k - 1, e, a, b);
    }
  }

  /** One step of `Rewired`: the bypasses of root edge `k - 1` come after those of the earlier ones. */
  lemma RewiredUnfold(g: Graph, v1: nat, top: nat, outward: bool, k: nat)
    requires WellFormed(g) && 0 < k <= |Incident(g, top, outward)|
    ensures var r, a := Rewired(g, v1, top, outward, k - 1), Incident(g, top, outward)[k - 1];
      a < |r.es| &&
      Rewired(g, v1, top, outward, k).es == r.es + Links(r, a, Pinned(r, v1, TopPin(g.es[a], outward), outward), outward)
  {
  }

  /** The bypasses root edge `k - 1` adds include the one for each cell edge of `g` on its pin. */
  lemma NewLink(g: Graph, v1: nat, top: nat, outward: bool, k: nat, e: Edge, a: nat, b: nat)
    requires WellFormed(g) && 0 < k <= |Incident(g, top, outward)| && a == Incident(g, top, outward)[k - 1]
    requires Linked(g, v1, top, outward, e, a, b)
    ensures e in Rewired(g, v1, top, outward, k).es
  {
    RewiredUnfold(g, v1, top, outward, k);
    var r := Rewired(g, v1, top, outward, k - 1);
    assert r.es[a] == g.es[a] && r.es[b] == g.es[b];
    var es1 := Pinned(r, v1, TopPin(g.es[a], outward), outward);
    PinnedComplete(r, v1, TopPin(g.es[a], outward), outward, b);
    var i :| 0 <= i < |es1| && es1[i] == b;
    var links := Links(r, a, es1, outward);
    assert links[i] == Link(r, a, b, outward) == e;
    assert e in links;
  }

  /**
   * The state of the loop of `rewire` after the first `k` edges at `top`:
   * `r` is `g` with bypass edges appended, and the pin of each of those
   * edges is on `v1`.
   */
  ghost predicate Rewiring(g: Graph, r: Graph, v1: nat, top: nat, outward: bool, k: nat)
  {
    WellFormed(g) && k <= |Incident(g, top, outward)| &&
    r == Rewired(g, v1, top, outward, k) &&
    r.vs == g.vs && WellFormed(r) &&
    |g.es| <= |r.es| && r.es[..|g.es|] == g.es &&
    (forall e :: |g.es| <= e < |r.es| ==> Bypass(r, |g.es|, v1, top, outward, r.es[e])) &&
    forall j :: 0 <= j < k ==> HasPin(r, v1, TopPin(g.es[Incident(g, top, outward)[j]], outward), outward)
  }

  /**
   * Edge `k` at `top` in the loop of `rewire`: without its pin on `v1` the
   * port rule fails; otherwise its bypasses are added.
   */
  method RewireOne(g: Graph, r: Graph, v1: nat, top: nat, outward: bool, k: nat) returns (r': Graph, found: bool)
    requires Rewiring(g, r, v1, top, outward, k) && k < |Incident(g, top, outward)|
    ensures found ==> Rewiring(g, r', v1, top, outward, k + 1)
    ensures !found ==> r' == r && !Fits(g, v1, g, top, outward)
    ensures !found ==> !HasPin(r, v1, TopPin(g.es[Incident(g, top, outward)[k]], outward), outward)
  {
    var a := Incident(g, top, outward)[k];
    assert r.es[a] == g.es[a];
    var pin := TopPin(g.es[a], outward);
    var es1 := Pinned(r, v1, pin, outward);
    PinnedMeaning(r, v1, pin, outward);
    if |es1| == 0 {
      assert At(g.es[a], top, outward);
      if HasPin(g, v1, pin, outward) {
        HasPinGrows(g, r, v1, pin, outward);
      }
      return r, false;
    }
    r' := AddBypasses(r, |g.es|, v1, top, outward, a, es1);
    RewiringNext(g, r, r', v1, top, outward, k);
    found := true;
  }

  /** Appending the bypasses of root edge `k`, when it has any, moves the loop state of `rewire` on by one edge. */
  lemma RewiringNext(g: Graph, r: Graph, r': Graph, v1: nat, top: nat, outward: bool, k: nat)
    requires Rewiring(g, r, v1, top, outward, k) && k < |Incident(g, top, outward)|
    requires var a := Incident(g, top, outward)[k];
      a < |r.es| && |Pinned(r, v1, TopPin(g.es[a], outward), outward)| > 0 &&
      r'.vs == r.vs && r'.es == r.es + Links(r, a, Pinned(r, v1, TopPin(g.es[a], outward), outward), outward)
    requires WellFormed(r') && forall e :: |g.es| <= e < |r'.es| ==> Bypass(r', |g.es|, v1, top, outward, r'.es[e])
    ensures Rewiring(g, r', v1, top, outward, k + 1)
  {
    var a := Incident(g, top, outward)[k];
    assert r.es[a] == g.es[a];
    RewiredUnfold(g, v1, top, outward, k + 1);
    assert r'.es[..|r.es|] == r.es;
    PrefixOfPrefix(g.es, r.es, r'.es);
    PinnedMeaning(r, v1, TopPin(g.es[a], outward), outward);
    PinsGrow(g, r, r', v1, top, outward, k);
  }

  /** The pins found for the first `k + 1` root edges are still found after more edges are appended. */
  lemma PinsGrow(g: Graph, r: Graph, r': Graph, v1: nat, top: nat, outward: bool, k: nat)
    requires WellFormed(g) && k < |Incident(g, top, outward)|
    requires |r.es| <= |r'.es| && r'.es[..|r.es|] == r.es
    requires forall j :: 0 <= j < k ==> HasPin(r, v1, TopPin(g.es[Incident(g, top, outward)[j]], outward), outward)
    requires HasPin(r, v1, TopPin(g.es[Incident(g, top, outward)[k]], outward), outward)
    ensures forall j :: 0 <= j < k + 1 ==> HasPin(r', v1, TopPin(g.es[Incident(g, top, outward)[j]], outward), outward)
  {
    forall j | 0 <= j <= k
      ensures HasPin(r', v1, TopPin(g.es[Incident(g, top, outward)[j]], outward), outward)
    {
      HasPinGrows(r, r', v1, TopPin(g.es[Incident(g, top, outward)[j]], outward), outward);
    }
  }

  /**
   * Without a direct edge between the two vertices, every pin found on the
   * rewired graph was already on `g`, so the port rule held from the start.
   */
  lemma RewiredFits(g: Graph, r: Graph, v1: nat, top: nat, outward: bool)
    requires WellFormed(g) && WellFormed(r) && NoDirect(g, v1, top, outward)
    requires |g.es| <= |r.es| && r.es[..|g.es|] == g.es
    requires forall e :: |g.es| <= e < |r.es| ==> Bypass(r, |g.es|, v1, top, outward, r.es[e])
    requires forall j :: 0 <= j < |Incident(g, top, outward)| ==>
      HasPin(r, v1, TopPin(g.es[Incident(g, top, outward)[j]], outward), outward)
    ensures Fits(g, v1, g, top, outward)
  {
    var edges := Incident(g, top, outward);
    forall j | 0 <= j < |edges| ensures HasPin(g, v1, TopPin(g.es[edges[j]], outward), outward) {
      PinBack(g, r, v1, top, outward, TopPin(g.es[edges[j]], outward));
    }
    FitsFromIncident(g, v1, g, top, outward);
  }

  /** With no direct root-to-cell edge, a pin the rewired graph has was there before. */
  lemma PinBack(g: Graph, r: Graph, v1: nat, top: nat, outward: bool, pin: string)
    requires WellFormed(r) && NoDirect(g, v1, top, outward)
    requires |g.es| <= |r.es| && r.es[..|g.es|] == g.es
    requires forall e :: |g.es| <= e < |r.es| ==> Bypass(r, |g.es|, v1, top, outward, r.es[e])
    requires HasPin(r, v1, pin, outward)
    ensures HasPin(g, v1, pin, outward)
  {
    var e :| 0 <= e < |r.es| && At(r.es[e], v1, !outward) && CellPin(r.es[e], outward) == pin;
    if e < |g.es| {
      assert r.es[e] == g.es[e];
    } else {
      var a: nat, b: nat :| a < |g.es| && Linked(r, v1, top, outward, r.es[e], a, b);
      assert r.es[a] == g.es[a];
      assert At(g.es[a], v1, !outward);
      assert false;
    }
  }

  // ---------------------------------------------------------------------
  // Removing the replaced pair

  /** Edge `e` has `v` as an end. */
  predicate Touches(e: Edge, v: nat)
  {
    e.src == v || e.dst == v
  }

  /** No edge of `g` has `v` as an end. */
  predicate Isolated(g: Graph, v: nat)
  {
    forall e :: 0 <= e < |g.es| ==> !Touches(g.es[e], v)
  }

  /**
   * `g.delete_edges(...)` of every in- and out-edge of `a` and of `b`:
   * the other edges keep their order.
   */
  function Detach(es: seq<Edge>, a: nat, b: nat): (r: seq<Edge>)
    ensures |r| <= |es|
    ensures forall e :: e in r <==> e in es && !Touches(e, a) && !Touches(e, b)
  {
    if |es| == 0 then []
    else
      var e := es[|es| - 1];
      assert forall x :: x in es <==> x in es[..|es| - 1] || x == e;
      Detach(es[..|es| - 1], a, b) + (if Touches(e, a) || Touches(e, b) then [] else [e])
  }

  /** Colour vertex `v` black. */
  function Blacken(vs: seq<Vertex>, v: nat): (r: seq<Vertex>)
    requires v < |vs|
    ensures |r| == |vs|
  {
    vs[v := vs[v].(color := Black)]
  }

  /** `i` after the ascend relabelling that exchanges 0 and `n`. */
  function Swap(i: nat, n: nat): nat
  {
    if i == 0 then n else if i == n then 0 else i
  }

  /** Every edge with its ends relabelled by `Swap(_, n)`. */
  function SwapEdges(es: seq<Edge>, n: nat): (r: seq<Edge>)
    ensures |r| == |es|
    ensures forall k :: 0 <= k < |es| ==> r[k] == es[k].(src := Swap(es[k].src, n), dst := Swap(es[k].dst, n))
  {
    seq(|es|, k requires 0 <= k < |es| => es[k].(src := Swap(es[k].src, n), dst := Swap(es[k].dst, n)))
  }

  /**
   * The end of an ascend: `contract_vertices` exchanges vertex 0 and
   * vertex `n` (the template root becomes the new root), their ids are
   * reset to their indices, and every vertex after the root gets the new
   * root's name and "/" in front of its own.
   */
  method SwapTop(g: Graph, n: nat) returns (r: Graph)
    requires WellFormed(g) && 0 < n < |g.vs|
    ensures |r.vs| == |g.vs| && WellFormed(r)
    ensures r.vs[0] == g.vs[n].(id := 0)
    ensures r.vs[n] == g.vs[0].(id := n, name := g.vs[n].name + "/" + g.vs[0].name)
    ensures forall i :: 0 < i < |g.vs| && i != n ==> r.vs[i] == g.vs[i].(name := g.vs[n].name + "/" + g.vs[i].name)
    ensures r.es == SwapEdges(g.es, n)
    ensures IdsAreIndices(g) ==> IdsAreIndices(r)
  {
    var es := SwapEdges(g.es, n);
    var vs := g.vs[0 := g.vs[n]][n := g.vs[0]];
    vs := vs[0 := vs[0].(id := 0)];
    var topName := vs[0].name;
    vs := vs[n := vs[n].(id := n)];
    for i := 1 to |vs|
      invariant |vs| == |g.vs| && vs[0] == g.vs[n].(id := 0) && topName == g.vs[n].name
      invariant forall j :: 1 <= j < i ==>
        vs[j] == (if j == n then g.vs[0].(id := n) else g.vs[j]).(name := topName + "/" + (if j == n then g.vs[0] else g.vs[j]).name)
      invariant forall j :: i <= j < |vs| ==> vs[j] == (if j == n then g.vs[0].(id := n) else g.vs[j])
    {
      vs := vs[i := vs[i].(name := topName + "/" + vs[i].name)];
    }
    r := Graph(vs, es);
  }

  // ---------------------------------------------------------------------
  // replace_hier_cell

  /** The vertices after a descend into `v1`: the cell and the template root black, the copies renamed. */
  ghost predicate Descended(g: Graph, hier: Graph, v1: nat, r: Graph)
    requires v1 < |g.vs| && 0 < |hier.vs|
  {
    var n := |g.vs|;
    |r.vs| == n + |hier.vs| &&
    (forall i :: 0 <= i < n && i != v1 ==> r.vs[i] == g.vs[i]) &&
    r.vs[v1] == g.vs[v1].(color := Black) &&
    r.vs[n] == Placed(hier.vs[0], n, Descend, g.vs[v1].name).(color := Black) &&
    forall j :: 0 < j < |hier.vs| ==> r.vs[n + j] == Placed(hier.vs[j], n + j, Descend, g.vs[v1].name)
  }

  /** Vertex `v`, coloured black when `b` holds. */
  function Dim(v: Vertex, b: bool): Vertex
  {
    if b then v.(color := Black) else v
  }

  /**
   * The vertices after an ascend whose skeleton stood in for template
   * vertex `j`: the template root is the new root, the old root (now at
   * index `n`) and the copy of vertex `j` are black and have no edges,
   * and every vertex after the root carries the template name in front.
   */
  ghost predicate Ascended(g: Graph, hier: Graph, j: nat, r: Graph)
    requires 0 < |g.vs| && j < |hier.vs|
  {
    var n, m, top := |g.vs|, |hier.vs|, hier.vs[0].name;
    |r.vs| == n + m &&
    r.vs[0] == Dim(hier.vs[0].(id := 0), j == 0) &&
    r.vs[n] == g.vs[0].(id := n, color := Black, name := top + "/" + g.vs[0].name) &&
    (forall i :: 0 < i < n ==> r.vs[i] == g.vs[i].(name := top + "/" + g.vs[i].name)) &&
    (forall k :: 0 < k < m ==>
      r.vs[n + k] == Dim(hier.vs[k].(id := n + k, name := top + "/" + hier.vs[k].name), k == j)) &&
    Isolated(r, n) && Isolated(r, Swap(n + j, n))
  }

  /** An edge of the copy step's edge list: an edge of `g`, or a renumbered template edge. */
  lemma CopiedEdge(g: Graph, hier: Graph, es: seq<Edge>, e: nat)
    requires WellFormed(g) && es == g.es + Shifted(hier.es, |g.vs|) && e < |es|
    ensures e < |g.es| ==> es[e] == g.es[e] && es[e].src < |g.vs| && es[e].dst < |g.vs|
    ensures e >= |g.es| ==>
      es[e] == hier.es[e - |g.es|].(src := hier.es[e - |g.es|].src + |g.vs|, dst := hier.es[e - |g.es|].dst + |g.vs|)
  {
  }


  /** After a descend's copy step, every edge of the template root on this side finds its pin. */
  lemma DescendFits(g: Graph, hier: Graph, v1: nat, g0: Graph, outward: bool)
    requires WellFormed(g) && WellFormed(hier) && v1 < |g.vs|
    requires g0.es == g.es + Shifted(hier.es, |g.vs|)
    requires Fits(g, v1, hier, 0, outward)
    ensures Fits(g0, v1, g0, |g.vs|, outward)
  {
    var n := |g.vs|;
    forall e | 0 <= e < |g0.es| && At(g0.es[e], n, outward)
      ensures HasPin(g0, v1, TopPin(g0.es[e], outward), outward)
    {
      CopiedEdge(g, hier, g0.es, e);
      if e < |g.es| {
        assert false;
      }
      var k := e - |g.es|;
      assert At(hier.es[k], 0, outward);
      var w :| 0 <= w < |g.es| && At(g.es[w], v1, !outward) && CellPin(g.es[w], outward) == TopPin(hier.es[k], outward);
      assert g0.es[w] == g.es[w];
    }
  }

  /**
   * The out-side rewiring keeps the in-side fit: a bypass edge into `top`
   * only comes from a root edge that both leaves and enters `top`, and it
   * carries that edge's input pin.
   */
  lemma InFitsAfterOut(g0: Graph, g1: Graph, v1: nat, top: nat)
    requires WellFormed(g0) && WellFormed(g1) && g1.vs == g0.vs
    requires |g0.es| <= |g1.es| && g1.es[..|g0.es|] == g0.es
    requires forall e :: |g0.es| <= e < |g1.es| ==> Bypass(g1, |g0.es|, v1, top, true, g1.es[e])
    requires Fits(g0, v1, g0, top, false)
    ensures Fits(g1, v1, g1, top, false)
  {
    forall e | 0 <= e < |g1.es| && At(g1.es[e], top, false)
      ensures HasPin(g1, v1, TopPin(g1.es[e], false), false)
    {
      var a: nat;
      if e < |g0.es| {
        assert g1.es[e] == g0.es[e];
        a := e;
      } else {
        var a': nat, b: nat :| a' < |g0.es| && Linked(g1, v1, top, true, g1.es[e], a', b);
        assert g1.es[a'] == g0.es[a'];
        a := a';
      }
      assert At(g0.es[a], top, false) && TopPin(g0.es[a], false) == TopPin(g1.es[e], false);
      HasPinGrows(g0, g1, v1, TopPin(g0.es[a], false), false);
    }
  }

  /** Every edge after both rewiring steps is an edge from before or has the class of its ends. */
  lemma BypassesClassified(g0: Graph, g1: Graph, g2: Graph, v1: nat, top: nat)
    requires WellFormed(g0) && WellFormed(g1) && WellFormed(g2) && g1.vs == g0.vs && g2.vs == g0.vs
    requires |g0.es| <= |g1.es| && g1.es[..|g0.es|] == g0.es
    requires |g1.es| <= |g2.es| && g2.es[..|g1.es|] == g1.es
    requires forall e :: |g0.es| <= e < |g1.es| ==> Bypass(g1, |g0.es|, v1, top, true, g1.es[e])
    requires forall e :: |g1.es| <= e < |g2.es| ==> Bypass(g2, |g1.es|, v1, top, false, g2.es[e])
    ensures forall e :: 0 <= e < |g2.es| ==>
      g2.es[e] in g0.es || g2.es[e].signal == Classify(g0.vs, g2.es[e].src, g2.es[e].dst)
  {
    forall e | 0 <= e < |g2.es|
      ensures g2.es[e] in g0.es || g2.es[e].signal == Classify(g0.vs, g2.es[e].src, g2.es[e].dst)
    {
      if e < |g0.es| {
        assert g2.es[e] == g1.es[e] == g0.es[e];
      } else if e < |g1.es| {
        assert g2.es[e] == g1.es[e];
        var a: nat, b: nat :| a < |g0.es| && Linked(g1, v1, top, true, g1.es[e], a, b);
      } else {
        var a: nat, b: nat :| a < |g1.es| && Linked(g2, v1, top, false, g2.es[e], a, b);
      }
    }
  }

  /**
   * The black-and-delete step of `replace_hier_cell`: both replaced
   * vertices turn black and lose every edge; the other edges stay.
   */
  function Unhook(g: Graph, a: nat, b: nat): (r: Graph)
    requires WellFormed(g) && a < |g.vs| && b < |g.vs|
    ensures WellFormed(r) && Isolated(r, a) && Isolated(r, b)
    ensures r.vs == Blacken(Blacken(g.vs, a), b)
    ensures r.es == Detach(g.es, a, b)
    ensures forall e :: 0 <= e < |r.es| ==> r.es[e] in g.es
  {
    var r := Graph(Blacken(Blacken(g.vs, a), b), Detach(g.es, a, b));
    assert forall e :: 0 <= e < |r.es| ==> r.es[e] in r.es;
    r
  }

  /**
   * The rewiring and removal steps of `replace_hier_cell` around `top`
   * (the root being replaced) and `target` (the vertex standing in for
   * it): bypass edges for the root's out-edges, then its in-edges; a root
   * edge without a matching pin stops with the graph as far as it got.
   */
  method Splice(g0: Graph, target: nat, top: nat) returns (r: Graph, ok: bool)
    requires WellFormed(g0) && target < |g0.vs| && top < |g0.vs|
    ensures WellFormed(r) && |r.vs| == |g0.vs|
    ensures Fits(g0, target, g0, top, true) && Fits(g0, target, g0, top, false) ==> ok
    ensures NoDirect(g0, target, top, true) && ok ==> Fits(g0, target, g0, top, true)
    ensures ok ==> r == Spliced(g0, target, top)
    ensures !ok ==> r.vs == g0.vs && |g0.es| <= |r.es| && r.es[..|g0.es|] == g0.es
    ensures ok ==> r.vs == Blacken(Blacken(g0.vs, top), target) && Isolated(r, top) && Isolated(r, target)
    ensures ok ==> forall e :: 0 <= e < |r.es| ==>
      r.es[e] in g0.es || r.es[e].signal == Classify(r.vs, r.es[e].src, r.es[e].dst)
  {
    var g1, okOut := Rewire(g0, target, top, true);
    if !okOut {
      return g1, false;
    }
    if Fits(g0, target, g0, top, false) {
      InFitsAfterOut(g0, g1, target, top);
    }
    var g2, okIn := Rewire(g1, target, top, false);
    if !okIn {
      PrefixOfPrefix(g0.es, g1.es, g2.es);
      return g2, false;
    }
    BypassesClassified(g0, g1, g2, target, top);
    r := Unhook(g2, top, target);
    UnhookClassified(g0, g2, target, top);
    ok := true;
  }

  /**
   * The graph `Splice` leaves when both rewiring loops finish: the
   * out-side bypasses, then the in-side ones (looked up on the graph with
   * the out-side ones in it), then both replaced vertices unhooked.
   */
  function Spliced(g0: Graph, target: nat, top: nat): Graph
    requires WellFormed(g0) && target < |g0.vs| && top < |g0.vs|
  {
    var g1 := Rewired(g0, target, top, true, |Incident(g0, top, true)|);
    Unhook(Rewired(g1, target, top, false, |Incident(g1, top, false)|), top, target)
  }

  /** The splice keeps every edge of `g0` that has neither replaced vertex as an end. */
  lemma SplicedKeeps(g0: Graph, target: nat, top: nat, e: Edge)
    requires WellFormed(g0) && target < |g0.vs| && top < |g0.vs|
    requires e in g0.es && !Touches(e, top) && !Touches(e, target)
    ensures e in Spliced(g0, target, top).es
  {
    var g1 := Rewired(g0, target, top, true, |Incident(g0, top, true)|);
    var i :| 0 <= i < |g0.es| && g0.es[i] == e;
    assert g1.es[i] == e;
    SplicedFromOut(g0, target, top, e);
  }

  /**
   * The splice adds the bypass edge for every root edge and every cell
   * edge of `g0` with matching pins, on both sides, unless the bypass has
   * a replaced vertex as an end.
   */
  lemma SplicedLinks(g0: Graph, target: nat, top: nat, outward: bool, e: Edge, a: nat, b: nat)
    requires WellFormed(g0) && target < |g0.vs| && top < |g0.vs|
    requires Linked(g0, target, top, outward, e, a, b) && !Touches(e, top) && !Touches(e, target)
    ensures e in Spliced(g0, target, top).es
  {
    if outward {
      AllLinks(g0, target, top, true, e, a, b);
      SplicedFromOut(g0, target, top, e);
    } else {
      var g1 := Rewired(g0, target, top, true, |Incident(g0, top, true)|);
      LinkedGrows(g0, g1, target, top, false, e, a, b);
      AllLinks(g1, target, top, false, e, a, b);
    }
  }

  /**
   * A descend keeps every edge of the skeleton away from the opened cell
   * and every template edge away from the template root, renumbered.
   */
  lemma DescendKeeps(g: Graph, hier: Graph, v1: nat, e: Edge)
    requires WellFormed(g) && WellFormed(hier) && v1 < |g.vs| && 0 < |hier.vs|
    requires e in g.es + Shifted(hier.es, |g.vs|) && !Touches(e, v1) && !Touches(e, |g.vs|)
    ensures e in Spliced(Expanded(g, hier, Descend, g.vs[v1].name), v1, |g.vs|).es
  {
    SplicedKeeps(Expanded(g, hier, Descend, g.vs[v1].name), v1, |g.vs|, e);
  }

  /** A whole rewiring loop adds the bypass for every matching pair of `g`. */
  lemma AllLinks(g: Graph, v1: nat, top: nat, outward: bool, e: Edge, a: nat, b: nat)
    requires WellFormed(g) && Linked(g, v1, top, outward, e, a, b)
    ensures e in Rewired(g, v1, top, outward, |Incident(g, top, outward)|).es
  {
    var l := Incident(g, top, outward);
    IncidentComplete(g, top, outward, a);
    assert l[..|l|] == l;
    RewiredLinks(g, v1, top, outward, |l|, e, a, b);
  }

  /** An edge present after the out-side loop, at neither replaced vertex, is in the spliced graph. */
  lemma SplicedFromOut(g0: Graph, target: nat, top: nat, e: Edge)
    requires WellFormed(g0) && target < |g0.vs| && top < |g0.vs|
    requires e in Rewired(g0, target, top, true, |Incident(g0, top, true)|).es
    requires !Touches(e, top) && !Touches(e, target)
    ensures e in Spliced(g0, target, top).es
  {
    var g1 := Rewired(g0, target, top, true, |Incident(g0, top, true)|);
    var g2 := Rewired(g1, target, top, false, |Incident(g1, top, false)|);
    var i :| 0 <= i < |g1.es| && g1.es[i] == e;
    assert g2.es[i] == e;
  }

  /** A prefix of a prefix of an edge list is a prefix of it. */
  lemma PrefixOfPrefix(x: seq<Edge>, y: seq<Edge>, z: seq<Edge>)
    requires |x| <= |y| <= |z| && y[..|x|] == x && z[..|y|] == y
    ensures z[..|x|] == x
  {
    assert z[..|x|] == z[..|y|][..|x|];
  }

  /** Unhooking both replaced vertices keeps every new edge's signal the one its ends call for. */
  lemma UnhookClassified(g0: Graph, g2: Graph, target: nat, top: nat)
    requires WellFormed(g2) && g2.vs == g0.vs && target < |g0.vs| && top < |g0.vs|
    requires forall e :: 0 <= e < |g2.es| ==>
      g2.es[e] in g0.es || g2.es[e].signal == Classify(g0.vs, g2.es[e].src, g2.es[e].dst)
    ensures var r := Unhook(g2, top, target);
      forall e :: 0 <= e < |r.es| ==>
        r.es[e] in g0.es || r.es[e].signal == Classify(r.vs, r.es[e].src, r.es[e].dst)
  {
    var r := Unhook(g2, top, target);
    forall e | 0 <= e < |r.es|
      ensures r.es[e] in g0.es || r.es[e].signal == Classify(r.vs, r.es[e].src, r.es[e].dst)
    {
      var k :| 0 <= k < |g2.es| && g2.es[k] == r.es[e];
      assert !Touches(r.es[e], top) && !Touches(r.es[e], target);
    }
  }

  /** The vertex facts of a descend, from the copy step's vertices. */
  lemma DescendedVertices(g: Graph, hier: Graph, v1: nat, vs: seq<Vertex>, r: Graph)
    requires v1 < |g.vs| && 0 < |hier.vs|
    requires |vs| == |g.vs| + |hier.vs| && vs[..|g.vs|] == g.vs
    requires forall j :: 0 <= j < |hier.vs| ==> vs[|g.vs| + j] == Placed(hier.vs[j], |g.vs| + j, Descend, g.vs[v1].name)
    requires r.vs == Blacken(Blacken(vs, |g.vs|), v1)
    ensures Descended(g, hier, v1, r)
  {
    var n := |g.vs|;
    forall i | 0 <= i < n ensures vs[i] == g.vs[i] {
      assert vs[..n][i] == vs[i];
    }
    assert r.vs[n] == vs[n].(color := Black);
  }

  /** The vertex and isolation facts of an ascend, from the copy step and the relabelling. */
  lemma AscendedVertices(g: Graph, hier: Graph, j: nat, vs: seq<Vertex>, g3: Graph, r: Graph)
    requires 0 < |g.vs| && j < |hier.vs|
    requires |vs| == |g.vs| + |hier.vs| && vs[..|g.vs|] == g.vs
    requires forall k :: 0 <= k < |hier.vs| ==> vs[|g.vs| + k] == hier.vs[k].(id := |g.vs| + k)
    requires g3.vs == Blacken(Blacken(vs, 0), |g.vs| + j)
    requires Isolated(g3, 0) && Isolated(g3, |g.vs| + j)
    requires |r.vs| == |g3.vs|
    requires r.vs[0] == g3.vs[|g.vs|].(id := 0)
    requires r.vs[|g.vs|] == g3.vs[0].(id := |g.vs|, name := g3.vs[|g.vs|].name + "/" + g3.vs[0].name)
    requires forall i :: 0 < i < |g3.vs| && i != |g.vs| ==>
      r.vs[i] == g3.vs[i].(name := g3.vs[|g.vs|].name + "/" + g3.vs[i].name)
    requires r.es == SwapEdges(g3.es, |g.vs|)
    ensures Ascended(g, hier, j, r)
  {
    var n := |g.vs|;
    forall i | 0 <= i < n ensures vs[i] == g.vs[i] {
      assert vs[..n][i] == vs[i];
    }
    assert g3.vs[n].name == hier.vs[0].name;
    assert g3.vs[0] == g.vs[0].(color := Black);
    forall k | 0 <= k < |r.es| ensures !Touches(r.es[k], n) && !Touches(r.es[k], Swap(n + j, n)) {
      assert !Touches(g3.es[k], 0) && !Touches(g3.es[k], n + j);
    }
  }

  /** Blackening two vertices leaves every id where it was. */
  lemma BlackenKeepsIds(g0: Graph, r: Graph, a: nat, b: nat)
    requires a < |g0.vs| && b < |g0.vs| && r.vs == Blacken(Blacken(g0.vs, a), b)
    ensures IdsAreIndices(g0) ==> IdsAreIndices(r)
  {
    forall i | 0 <= i < |r.vs| ensures r.vs[i].id == g0.vs[i].id { }
  }

  /** The last step of an ascend: the template's top vertex swaps places with vertex 0. */
  method AscendTop(g: Graph, hier: Graph, j: nat, dir: Direction, prefix: string, vs: seq<Vertex>,
                   target: nat, top: nat, g3: Graph) returns (r: Graph)
    requires 0 < |g.vs| && j < |hier.vs| && dir == Ascend && prefix == "" && top == 0 && target == |g.vs| + j
    requires |vs| == |g.vs| + |hier.vs| && vs[..|g.vs|] == g.vs
    requires forall j :: 0 <= j < |hier.vs| ==> vs[|g.vs| + j] == Placed(hier.vs[j], |g.vs| + j, dir, prefix)
    requires WellFormed(g3) && g3.vs == Blacken(Blacken(vs, top), target)
    requires Isolated(g3, top) && Isolated(g3, target)
    ensures WellFormed(r) && |r.vs| == |g3.vs|
    ensures IdsAreIndices(g3) ==> IdsAreIndices(r)
    ensures Ascended(g, hier, j, r)
    ensures r.es == SwapEdges(g3.es, |g.vs|)
  {
    r := SwapTop(g3, |g.vs|);
    AscendedVertices(g, hier, j, vs, g3, r);
  }

  /**
   * `replace_hier_cell(g, g_hier, v1_id, direction)`, returning the graph,
   * the pass flag (1 as true) and the new vertex list. Descending, `v1` is
   * the hierarchical cell of `g` to open up; ascending, it is the id of
   * the template vertex the skeleton `g` stands for. On a failed rewiring
   * the graph comes back as far as it got, with an empty list.
   */
  method ReplaceHierCell(g: Graph, hier: Graph, v1: nat, dir: Direction)
    returns (r: Graph, ok: bool, newVertices: seq<nat>)
    requires WellFormed(g) && WellFormed(hier) && 0 < |g.vs| && 0 < |hier.vs|
    requires dir == Descend ==> v1 < |g.vs|
    requires dir == Ascend ==> HasId(hier.vs, v1)
    ensures WellFormed(r) && |g.vs| <= |r.vs|
    ensures IdsAreIndices(g) ==> IdsAreIndices(r)
    ensures !ok ==> newVertices == []
    ensures forall x :: x in newVertices ==> x < |r.vs|
    ensures ok ==> |r.vs| == |g.vs| + |hier.vs|
    ensures dir == Descend ==> (ok <==> PortsFit(g, v1, hier))
    ensures dir == Descend && !ok ==> r == g
    ensures dir == Descend && ok ==>
      Descended(g, hier, v1, r) && newVertices == Range(|g.vs|, |hier.vs|) &&
      Isolated(r, v1) && Isolated(r, |g.vs|)
    ensures dir == Descend && ok ==> forall e :: 0 <= e < |r.es| ==>
      r.es[e] in g.es || r.es[e] in Shifted(hier.es, |g.vs|) ||
      r.es[e].signal == Classify(r.vs, r.es[e].src, r.es[e].dst)
    ensures dir == Descend && ok ==> r == Spliced(Expanded(g, hier, Descend, g.vs[v1].name), v1, |g.vs|)
    ensures dir == Ascend && ok ==> Ascended(g, hier, LastWithId(hier.vs, v1), r)
    ensures dir == Ascend && ok ==> SwappedSplice(g, hier, |g.vs| + LastWithId(hier.vs, v1), r)
  {
    var n := |g.vs|;
    var prefix := "";
    if dir == Descend {
      var reject := ReplacePreCheck(g, v1, hier);
      if reject {
        return g, false, [];
      }
      prefix := g.vs[v1].name;
    }
    var vs, target, added := CopyVertices(g, hier, v1, dir, prefix);
    var es := CopyEdges(g.es, hier, n);
    if dir == Descend {
      r := SpliceDescend(g, hier, v1, vs, es);
      ok := true;
    } else {
      ghost var g3;
      r, ok, g3 := SpliceAscend(g, hier, v1, vs, es, target);
      if ok {
        SwappedFromTop(g, hier, target, g3, r);
      }
    }
    newVertices := if ok then added else [];
  }

  /**
   * The edges after an ascend: those of the template-sized graph spliced
   * at `target`, the copy of the template vertex the skeleton's root stands
   * for, and at the old root 0, with vertex 0 and vertex `|g.vs|` exchanged.
   */
  ghost predicate SwappedSplice(g: Graph, hier: Graph, target: nat, r: Graph)
    requires WellFormed(g) && WellFormed(hier) && 0 < |g.vs| && |g.vs| <= target < |g.vs| + |hier.vs|
  {
    r.es == SwapEdges(Spliced(Expanded(g, hier, Ascend, ""), target, 0).es, |g.vs|)
  }

  /**
   * The part of a descend's `replace_hier_cell` after the two copy loops:
   * the rewiring around the copied template root and the removal of the
   * replaced pair. The port rule has already been checked, so it cannot
   * fail.
   */
  method SpliceDescend(g: Graph, hier: Graph, v1: nat, vs: seq<Vertex>, es: seq<Edge>) returns (r: Graph)
    requires WellFormed(g) && WellFormed(hier) && v1 < |g.vs| && 0 < |hier.vs| && PortsFit(g, v1, hier)
    requires |vs| == |g.vs| + |hier.vs| && vs[..|g.vs|] == g.vs
    requires forall j :: 0 <= j < |hier.vs| ==> vs[|g.vs| + j] == Placed(hier.vs[j], |g.vs| + j, Descend, g.vs[v1].name)
    requires es == g.es + Shifted(hier.es, |g.vs|)
    ensures WellFormed(r) && |r.vs| == |g.vs| + |hier.vs|
    ensures IdsAreIndices(g) ==> IdsAreIndices(r)
    ensures Descended(g, hier, v1, r) && Isolated(r, v1) && Isolated(r, |g.vs|)
    ensures forall e :: 0 <= e < |r.es| ==>
      r.es[e] in g.es || r.es[e] in Shifted(hier.es, |g.vs|) ||
      r.es[e].signal == Classify(r.vs, r.es[e].src, r.es[e].dst)
    ensures r == Spliced(Expanded(g, hier, Descend, g.vs[v1].name), v1, |g.vs|)
  {
    var g0 := Graph(vs, es);
    CopiedGraph(g, hier, Descend, g.vs[v1].name, vs, es);
    DescendFits(g, hier, v1, g0, true);
    DescendFits(g, hier, v1, g0, false);
    var spliced;
    r, spliced := Splice(g0, v1, |g.vs|);
    if !spliced {
      assert false;
    }
    BlackenKeepsIds(g0, r, |g.vs|, v1);
    DescendedVertices(g, hier, v1, vs, r);
    ExpandedCopy(g, hier, Descend, g.vs[v1].name, vs, es);
  }

  /** The relabelled graph of an ascend has the swapped edges of the splice. */
  lemma SwappedFromTop(g: Graph, hier: Graph, target: nat, g3: Graph, r: Graph)
    requires WellFormed(g) && WellFormed(hier) && 0 < |g.vs| && |g.vs| <= target < |g.vs| + |hier.vs|
    requires g3 == Spliced(Expanded(g, hier, Ascend, ""), target, 0) && r.es == SwapEdges(g3.es, |g.vs|)
    ensures SwappedSplice(g, hier, target, r)
  {
  }

  /**
   * The part of an ascend's `replace_hier_cell` after the two copy loops:
   * the rewiring around the skeleton's root, which stands in for template
   * vertex `target - |g.vs|`, the removal of the replaced pair and the
   * exchange of vertex 0 with the template root.
   */
  method SpliceAscend(g: Graph, hier: Graph, v1: nat, vs: seq<Vertex>, es: seq<Edge>, target: nat)
    returns (r: Graph, ok: bool, ghost g3: Graph)
    requires WellFormed(g) && WellFormed(hier) && 0 < |g.vs| && 0 < |hier.vs| && HasId(hier.vs, v1)
    requires |vs| == |g.vs| + |hier.vs| && vs[..|g.vs|] == g.vs
    requires forall j :: 0 <= j < |hier.vs| ==> vs[|g.vs| + j] == Placed(hier.vs[j], |g.vs| + j, Ascend, "")
    requires target == |g.vs| + LastWithId(hier.vs, v1)
    requires es == g.es + Shifted(hier.es, |g.vs|)
    ensures WellFormed(r) && |g.vs| <= |r.vs|
    ensures IdsAreIndices(g) ==> IdsAreIndices(r)
    ensures ok ==> |r.vs| == |g.vs| + |hier.vs|
    ensures ok ==> Ascended(g, hier, LastWithId(hier.vs, v1), r)
    ensures ok ==> g3 == Spliced(Expanded(g, hier, Ascend, ""), target, 0) && r.es == SwapEdges(g3.es, |g.vs|)
  {
    var spliced;
    spliced, ok := SpliceAtRoot(g, hier, vs, es, target);
    g3 := spliced;
    if !ok {
      return spliced, false, g3;
    }
    r := AscendTop(g, hier, LastWithId(hier.vs, v1), Ascend, "", vs, target, 0, spliced);
  }

  /** The rewiring and removal steps of an ascend, before the relabelling. */
  method SpliceAtRoot(g: Graph, hier: Graph, vs: seq<Vertex>, es: seq<Edge>, target: nat)
    returns (r: Graph, ok: bool)
    requires WellFormed(g) && WellFormed(hier) && 0 < |g.vs| && |g.vs| <= target < |g.vs| + |hier.vs|
    requires |vs| == |g.vs| + |hier.vs| && vs[..|g.vs|] == g.vs
    requires forall j :: 0 <= j < |hier.vs| ==> vs[|g.vs| + j] == Placed(hier.vs[j], |g.vs| + j, Ascend, "")
    requires es == g.es + Shifted(hier.es, |g.vs|)
    ensures WellFormed(r) && |g.vs| <= |r.vs|
    ensures IdsAreIndices(g) ==> IdsAreIndices(r)
    ensures ok ==> r == Spliced(Expanded(g, hier, Ascend, ""), target, 0)
    ensures ok ==> r.vs == Blacken(Blacken(vs, 0), target) && Isolated(r, 0) && Isolated(r, target)
  {
    var g0 := Graph(vs, es);
    CopiedGraph(g, hier, Ascend, "", vs, es);
    ExpandedCopy(g, hier, Ascend, "", vs, es);
    r, ok := Splice(g0, target, 0);
    if ok {
      BlackenKeepsIds(g0, r, 0, target);
    }
  }

  // ---------------------------------------------------------------------
  // Neighbourhoods

  /**
   * Edge `e` joins `x` to a seed: `x` is one end and a seed the other;
   * when `strict`, the seed must be another vertex than `x`.
   */
  predicate Joins(g: Graph, seeds: set<int>, e: nat, x: nat, strict: bool)
    requires e < |g.es|
  {
    var s, t := g.es[e].src, g.es[e].dst;
    (s in seeds && t == x && (strict ==> s != x)) || (t in seeds && s == x && (strict ==> t != x))
  }

  /** One of the first `k` edges joins `x` to a seed. */
  ghost predicate NearBy(g: Graph, seeds: set<int>, k: nat, x: nat, strict: bool)
    requires k <= |g.es|
  {
    exists e :: 0 <= e < k && Joins(g, seeds, e, x, strict)
  }

  /** `x` is adjacent to a seed (other than itself, when `strict`). */
  ghost predicate Neighbour(g: Graph, seeds: set<int>, x: nat, strict: bool)
  {
    exists a :: a in seeds && 0 <= a < |g.vs| && (strict ==> a != x) && Adjacent(g, a, x)
  }

  lemma NearByAll(g: Graph, seeds: set<int>, x: nat, strict: bool)
    requires WellFormed(g)
    ensures NearBy(g, seeds, |g.es|, x, strict) <==> Neighbour(g, seeds, x, strict)
  {
    if NearBy(g, seeds, |g.es|, x, strict) {
      var e :| 0 <= e < |g.es| && Joins(g, seeds, e, x, strict);
      var a := if g.es[e].dst == x && g.es[e].src in seeds && (strict ==> g.es[e].src != x) then g.es[e].src else g.es[e].dst;
      assert a in seeds && 0 <= a < |g.vs| && (strict ==> a != x) && Adjacent(g, a, x);
    }
    if Neighbour(g, seeds, x, strict) {
      var a :| a in seeds && 0 <= a < |g.vs| && (strict ==> a != x) && Adjacent(g, a, x);
      var e :| 0 <= e < |g.es| &&
        ((g.es[e].src == a && g.es[e].dst == x) || (g.es[e].src == x && g.es[e].dst == a));
      assert Joins(g, seeds, e, x, strict);
    }
  }

  /**
   * `neighborhood(seeds, order=1)` as a flag per vertex, from one scan
   * of the edge list: with `strict` (igraph's `mindist=1`) a seed is not
   * its own neighbour; otherwise a self-loop makes it one, as in
   * `neighbors(x)`.
   */
  method Neighbourhood(g: Graph, seeds: set<int>, strict: bool) returns (near: seq<bool>)
    requires WellFormed(g)
    ensures |near| == |g.vs|
    ensures forall x :: 0 <= x < |g.vs| ==> (near[x] <==> Neighbour(g, seeds, x, strict))
  {
    near := seq(|g.vs|, _ => false);
    for e := 0 to |g.es|
      invariant |near| == |g.vs|
      invariant forall x :: 0 <= x < |g.vs| ==> (near[x] <==> NearBy(g, seeds, e, x, strict))
    {
      var s, t := g.es[e].src, g.es[e].dst;
      ghost var before := near;
      if s in seeds && (strict ==> t != s) {
        near := near[t := true];
      }
      if t in seeds && (strict ==> s != t) {
        near := near[s := true];
      }
      assert forall x :: 0 <= x < |g.vs| ==> (near[x] <==> before[x] || Joins(g, seeds, e, x, strict));
      forall x | 0 <= x < |g.vs|
        ensures NearBy(g, seeds, e + 1, x, strict) <==> NearBy(g, seeds, e, x, strict) || Joins(g, seeds, e, x, strict)
      {
        if Joins(g, seeds, e, x, strict) {
          assert 0 <= e < e + 1;
        }
        if NearBy(g, seeds, e + 1, x, strict) {
          var d :| 0 <= d < e + 1 && Joins(g, seeds, d, x, strict);
          if d < e {
            assert NearBy(g, seeds, e, x, strict);
          }
        }
      }
    }
    forall x | 0 <= x < |g.vs| ensures near[x] <==> Neighbour(g, seeds, x, strict) {
      NearByAll(g, seeds, x, strict);
    }
  }

  // ---------------------------------------------------------------------
  // get_spanning_hier_cells

  /** The seeds: the mapping's template vertices, or the limit list when one is given. */
  function Seeds(mapping: map<int, int>, limit: Option<seq<int>>): set<int>
  {
    match limit
    case None => mapping.Values
    case Some(l) => set x | x in l
  }

  /** `x` is a hierarchical cell next to a seed: green, not the root, one edge from another seed. */
  ghost predicate Spanning(g: Graph, seeds: set<int>, x: nat)
  {
    x < |g.vs| && x != 0 && g.vs[x].color == Green && Neighbour(g, seeds, x, true)
  }

  /**
   * `get_spanning_hier_cells(g_template, mapping, limit_vertices)`. The
   * source deduplicates through a set, whose order is unspecified; the
   * model lists the cells in ascending order.
   */
  method GetSpanningHierCells(g: Graph, mapping: map<int, int>, limit: Option<seq<int>>) returns (r: seq<nat>)
    requires WellFormed(g)
    ensures forall i, j :: 0 <= i < j < |r| ==> r[i] < r[j]
    ensures forall x: nat :: x in r <==> Spanning(g, Seeds(mapping, limit), x)
  {
    var seeds := Seeds(mapping, limit);
    var near := Neighbourhood(g, seeds, true);
    r := [];
    for x := 0 to |g.vs|
      invariant forall i, j :: 0 <= i < j < |r| ==> r[i] < r[j]
      invariant forall y :: y in r ==> y < x
      invariant forall y: nat :: y < x ==> (y in r <==> near[y] && y != 0 && g.vs[y].color == Green)
    {
      if near[x] && x != 0 && g.vs[x].color == Green {
        assert forall i :: 0 <= i < |r| ==> r[i] in r;
        r := r + [x];
      }
    }
  }

  // ---------------------------------------------------------------------
  // update_map

  /** Template vertices with this many out-edges or more are not rechecked. */
  const EdgeLimit := 200

  /** The members of a vertex list. */
  function AsSet(xs: seq<nat>): set<int>
  {
    set x: int | x in xs
  }

  /** The template vertices next to a new vertex that the mapping already reaches. */
  ghost function MappedNeighbours(t: Graph, newVertices: seq<nat>, mapping: map<int, int>): set<nat>
  {
    set y: nat | y < |t.vs| && IsValue(mapping, y) && Neighbour(t, AsSet(newVertices), y, false)
  }

  /** Design vertex `k`'s template vertex is one `update_map` runs `compare_vertex` on again. */
  ghost predicate Rechecked(g: Graph, t: Graph, newVertices: seq<nat>, mapping: map<int, int>, k: int)
    requires k in mapping
  {
    mapping[k] in MappedNeighbours(t, newVertices, mapping) && |OutEdges(t, mapping[k])| < EdgeLimit
  }

  /** Every rechecked design vertex of `done` (by template vertex) is matched both ways under `m`. */
  ghost predicate AllMatched(g: Graph, t: Graph, newVertices: seq<nat>, mapping: map<int, int>, done: set<nat>, m: map<int, int>)
    requires forall k :: k in mapping ==> 0 <= k < |g.vs|
  {
    forall k :: (k in mapping && mapping[k] in done && Rechecked(g, t, newVertices, mapping, k) &&
                 !IsConstantVertex(g.vs[k])) ==>
      Matched(g, k, t, mapping[k], false, m) && Matched(g, k, t, mapping[k], true, m)
  }

  /** Hits under a mapping survive in every extension of it. */
  lemma MatchedMono(g1: Graph, v1: nat, g2: Graph, v2: nat, outward: bool, m: map<int, int>, m2: map<int, int>)
    requires Extends(m2, m) && Matched(g1, v1, g2, v2, outward, m)
    ensures Matched(g1, v1, g2, v2, outward, m2)
  {
    var l2 := Incident(g2, v2, outward);
    forall j | 0 <= j < |l2| && g2.es[l2[j]].signal != Port
      ensures Hit(m2, Endpoints(g1, v1, outward, EdgeKey(g2.es[l2[j]])), Far(g2.es[l2[j]], outward))
    {
      var e := g2.es[l2[j]];
      var k :| k in Endpoints(g1, v1, outward, EdgeKey(e)) && k in m && m[k] == Far(e, outward);
      assert k in m2 && m2[k] == m[k];
    }
  }

  /**
   * `update_map(g, g_template, mapping, new_vertices)`: `compare_vertex`
   * again for every mapped neighbour of the new vertices with fewer than
   * `EdgeLimit` out-edges, from the design vertex mapped to it, threading
   * the mapping through; the first failure gives `None`. The source walks
   * the neighbours as a set, so any order may be taken.
   */
  method UpdateMap(g: Graph, t: Graph, mapping: map<int, int>, newVertices: seq<nat>)
    returns (r: Option<map<int, int>>)
    requires WellFormed(t)
    requires forall k :: k in mapping ==> 0 <= k < |g.vs|
    ensures r.Some? ==> Extends(r.value, mapping) && NewPairsAgree(g, t, r.value, mapping)
    ensures r.Some? && Injective(mapping) ==> Injective(r.value)
    ensures r.Some? && Injective(mapping) ==>
      AllMatched(g, t, newVertices, mapping, MappedNeighbours(t, newVertices, mapping), r.value)
    ensures (forall y :: y in MappedNeighbours(t, newVertices, mapping) ==> |OutEdges(t, y)| >= EdgeLimit) ==>
      r == Some(mapping)
  {
    var seeds := AsSet(newVertices);
    var near := Neighbourhood(t, seeds, false);
    var todo := set y: nat | y < |near| && near[y] && IsValue(mapping, y);
    assert todo == MappedNeighbours(t, newVertices, mapping);
    var m := mapping;
    while todo != {}
      invariant Updating(g, t, newVertices, mapping, todo, m)
      decreases |todo|
    {
      var x :| x in todo;
      var next := UpdateOne(g, t, newVertices, mapping, todo, m, x);
      if next.None? {
        return None;
      }
      m := next.value;
      todo := todo - {x};
    }
    return Some(m);
  }

  /**
   * The state of the `update_map` loop: `todo` is what is left of the
   * mapped neighbours, and `m` extends the mapping with agreeing pairs and
   * has matched the edges of every neighbour done so far.
   */
  ghost predicate Updating(g: Graph, t: Graph, newVertices: seq<nat>, mapping: map<int, int>,
                           todo: set<nat>, m: map<int, int>)
    requires forall k :: k in mapping ==> 0 <= k < |g.vs|
  {
    todo <= MappedNeighbours(t, newVertices, mapping) &&
    Extends(m, mapping) && NewPairsAgree(g, t, m, mapping) &&
    (Injective(mapping) ==> Injective(m)) &&
    (Injective(mapping) ==> AllMatched(g, t, newVertices, mapping, MappedNeighbours(t, newVertices, mapping) - todo, m)) &&
    ((forall y :: y in MappedNeighbours(t, newVertices, mapping) ==> |OutEdges(t, y)| >= EdgeLimit) ==> m == mapping)
  }

  /** One round of the `update_map` loop, on the mapped neighbour `x`. */
  method UpdateOne(g: Graph, t: Graph, newVertices: seq<nat>, mapping: map<int, int>,
                   todo: set<nat>, m: map<int, int>, x: nat)
    returns (r: Option<map<int, int>>)
    requires WellFormed(t)
    requires forall k :: k in mapping ==> 0 <= k < |g.vs|
    requires Updating(g, t, newVertices, mapping, todo, m) && x in todo
    ensures r.None? ==> |OutEdges(t, x)| < EdgeLimit
    ensures r.Some? ==> Updating(g, t, newVertices, mapping, todo - {x}, r.value)
  {
    ghost var cand := MappedNeighbours(t, newVertices, mapping);
    assert x in cand;
    var key :| key in mapping && mapping[key] == x;
    if |OutEdges(t, x)| >= EdgeLimit {
      return Some(m);
    }
    var c := CompareVertex(m, g, key, t, x);
    if c.None? {
      return None;
    }
    AgreeTrans(g, t, c.value, m, mapping);
    ExtendsTrans(c.value, m, mapping);
    if Injective(mapping) {
      forall k | k in mapping && mapping[k] in cand - (todo - {x}) && Rechecked(g, t, newVertices, mapping, k) &&
          !IsConstantVertex(g.vs[k])
        ensures Matched(g, k, t, mapping[k], false, c.value) && Matched(g, k, t, mapping[k], true, c.value)
      {
        if mapping[k] != x {
          MatchedMono(g, k, t, mapping[k], false, m, c.value);
          MatchedMono(g, k, t, mapping[k], true, m, c.value);
        }
      }
    }
    return c;
  }

  // ---------------------------------------------------------------------
  // label_const_sources

  /** An edge as `label_const_sources` leaves it: CONST0 out of GND, CONST1 out of VCC, otherwise unchanged. */
  function ConstLabelled(vs: seq<Vertex>, e: Edge): Edge
    requires e.src < |vs|
  {
    if vs[e.src].ref == "GND" then e.(signal := Const0)
    else if vs[e.src].ref == "VCC" then e.(signal := Const1)
    else e
  }

  /** The inner loop: `signal` set on every out-edge of `v`. */
  method LabelOutEdges(g: Graph, v: nat, s: Signal) returns (r: Graph)
    requires WellFormed(g)
    ensures r.vs == g.vs && |r.es| == |g.es| && WellFormed(r)
    ensures forall e :: 0 <= e < |g.es| ==>
      r.es[e] == if g.es[e].src == v then g.es[e].(signal := s) else g.es[e]
  {
    var out := OutEdges(g, v);
    r := g;
    for k := 0 to |out|
      invariant r.vs == g.vs && |r.es| == |g.es|
      invariant forall e :: 0 <= e < |g.es| ==>
        r.es[e] == if e in out[..k] then g.es[e].(signal := s) else g.es[e]
    {
      assert out[..k + 1] == out[..k] + [out[k]];
      r := r.(es := r.es[out[k] := r.es[out[k]].(signal := s)]);
    }
    assert out[..|out|] == out;
    forall e | 0 <= e < |g.es| && g.es[e].src == v
      ensures e in out
    {
      OutEdgesComplete(g, v, e);
    }
  }

  /** The outer loop: the out-edges of every vertex with reference `ref`, in vertex order. */
  method LabelSources(g: Graph, ref: string, s: Signal) returns (r: Graph)
    requires WellFormed(g)
    ensures r.vs == g.vs && |r.es| == |g.es| && WellFormed(r)
    ensures forall e :: 0 <= e < |g.es| ==>
      r.es[e] == if g.vs[g.es[e].src].ref == ref then g.es[e].(signal := s) else g.es[e]
  {
    r := g;
    for v := 0 to |g.vs|
      invariant r.vs == g.vs && |r.es| == |g.es| && WellFormed(r)
      invariant forall e :: 0 <= e < |g.es| ==>
        r.es[e] == if g.es[e].src < v && g.vs[g.es[e].src].ref == ref then g.es[e].(signal := s) else g.es[e]
    {
      if g.vs[v].ref == ref {
        r := LabelOutEdges(r, v, s);
      }
    }
  }

  /**
   * `label_const_sources(g)`: every out-edge of a GND cell becomes
   * CONST0, then every out-edge of a VCC cell CONST1.
   */
  method LabelConstSources(g: Graph) returns (r: Graph)
    requires WellFormed(g)
    ensures r.vs == g.vs && |r.es| == |g.es| && WellFormed(r)
    ensures forall e :: 0 <= e < |g.es| ==> r.es[e] == ConstLabelled(g.vs, g.es[e])
  {
    r := LabelSources(g, "GND", Const0);
    r := LabelSources(r, "VCC", Const1);
  }

  /** Labelling twice is labelling once. */
  lemma LabelIdempotent(vs: seq<Vertex>, es: seq<Edge>)
    requires forall e :: 0 <= e < |es| ==> es[e].src < |vs|
    ensures forall e :: 0 <= e < |es| ==> ConstLabelled(vs, ConstLabelled(vs, es[e])) == ConstLabelled(vs, es[e])
  {
  }
}
