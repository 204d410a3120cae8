// Building blocks of the template library: the subgraph of one
// hierarchical cell, the user properties of a design, the structural
// equality of a new cell against a stored template, and the widening of
// a template's user properties.

module Library {

  import opened Wrappers
  import opened Text
  import opened Netlist
  import opened Equation
  import Matcher

  // ---------------------------------------------------------------------
  // The subgraph of one hierarchical cell

  /** Indices below `n`, ascending, of the vertices whose parent is `parent`. */
  function Children(g: Graph, parent: string, n: nat): (r: seq<nat>)
    requires n <= |g.vs|
    ensures forall k :: 0 <= k < |r| ==> r[k] < n && g.vs[r[k]].parent == parent
  {
    if n == 0 then []
    else Children(g, parent, n - 1) + (if g.vs[n - 1].parent == parent then [n - 1] else [])
  }

  /** The children are listed in ascending index order. */
  lemma {:induction false} ChildrenAscending(g: Graph, parent: string, n: nat)
    requires n <= |g.vs|
    ensures forall k, l :: 0 <= k < l < |Children(g, parent, n)| ==> Children(g, parent, n)[k] < Children(g, parent, n)[l]
  {
    if n > 0 {
      ChildrenAscending(g, parent, n - 1);
    }
  }

  lemma {:induction false} ChildrenComplete(g: Graph, parent: string, n: nat, j: nat)
    requires j < n <= |g.vs| && g.vs[j].parent == parent
    ensures j in Children(g, parent, n)
  {
    if j < n - 1 {
      ChildrenComplete(g, parent, n - 1, j);
    }
  }

  /**
   * Where each vertex of the design lands in the subgraph: the cell itself
   * at 0, its children from 1 on in index order (a later entry wins).
   */
  function VDict(p: nat, ch: seq<nat>): map<nat, nat>
  {
    if |ch| == 0 then map[p := 0]
    else VDict(p, ch[..|ch| - 1])[ch[|ch| - 1] := |ch|]
  }

  /** The map's keys are the cell and its children, its values the subgraph's indices. */
  lemma {:induction false} VDictKeys(p: nat, ch: seq<nat>)
    ensures forall x :: x in VDict(p, ch) <==> x == p || x in ch
    ensures forall x :: x in VDict(p, ch) ==> VDict(p, ch)[x] <= |ch|
    ensures p !in ch ==> VDict(p, ch)[p] == 0
  {
    if |ch| > 0 {
      var m := |ch| - 1;
      VDictKeys(p, ch[..m]);
      assert ch == ch[..m] + [ch[m]];
    }
  }

  /** A child listed once lands at its position plus one. */
  lemma {:induction false} VDictChild(p: nat, ch: seq<nat>, k: nat)
    requires k < |ch| && ch[k] !in ch[k + 1..]
    ensures ch[k] in VDict(p, ch) && VDict(p, ch)[ch[k]] == k + 1
    decreases |ch|
  {
    var m := |ch| - 1;
    if k < m {
      assert ch[m] in ch[k + 1..];
      assert ch[..m][k + 1..] == ch[k + 1..m];
      VDictChild(p, ch[..m], k);
    }
  }

  /** The cell's own vertex: it keeps its attributes, with its name cut to the last segment. */
  function RootCopy(v: Vertex): (r: Vertex)
    ensures r.id == 0 && r.name == LastSegment(v.name) && '/' !in r.name
    ensures r.ref == v.ref && r.color == v.color && r.kind == v.kind && r.parent == v.parent
  {
    v.(id := 0, name := LastSegment(v.name))
  }

  /** A child's vertex: name and parent cut to their last segments. */
  function ChildCopy(v: Vertex, i: nat): (r: Vertex)
    ensures r.id == i && r.name == LastSegment(v.name) && r.parent == LastSegment(v.parent)
    ensures r.ref == v.ref && r.color == v.color && r.kind == v.kind && r.cellName == v.cellName
  {
    v.(id := i, name := LastSegment(v.name), parent := LastSegment(v.parent))
  }

  /** The cell's vertex followed by its children's, numbered from 1. */
  function SubVertices(g: Graph, p: nat, ch: seq<nat>): (r: seq<Vertex>)
    requires p < |g.vs|
    requires forall k :: 0 <= k < |ch| ==> ch[k] < |g.vs|
    ensures |r| == |ch| + 1
    ensures r[0] == RootCopy(g.vs[p])
  {
    if |ch| == 0 then [RootCopy(g.vs[p])]
    else SubVertices(g, p, ch[..|ch| - 1]) + [ChildCopy(g.vs[ch[|ch| - 1]], |ch|)]
  }

  lemma {:induction false} SubVerticesChildren(g: Graph, p: nat, ch: seq<nat>)
    requires p < |g.vs|
    requires forall k :: 0 <= k < |ch| ==> ch[k] < |g.vs|
    ensures forall i :: 1 <= i < |ch| + 1 ==> SubVertices(g, p, ch)[i] == ChildCopy(g.vs[ch[i - 1]], i)
  {
    if |ch| > 0 {
      SubVerticesChildren(g, p, ch[..|ch| - 1]);
    }
  }

  /** An edge of the cell, re-pointed into the subgraph, its parent cut to the last segment. */
  function CopyEdge(e: Edge, vd: map<nat, nat>): (r: Edge)
    requires e.src in vd && e.dst in vd
  {
    e.(src := vd[e.src], dst := vd[e.dst], parent := LastSegment(e.parent))
  }

  /** Edge `j` belongs to the cell and both its ends landed in the subgraph. */
  predicate Copied(g: Graph, parent: string, vd: map<nat, nat>, j: nat)
    requires j < |g.es|
  {
    g.es[j].parent == parent && g.es[j].src in vd && g.es[j].dst in vd
  }

  /** Edge `j` belongs to the cell but one of its ends lies outside it. */
  predicate Skipped(g: Graph, parent: string, vd: map<nat, nat>, j: nat)
    requires j < |g.es|
  {
    g.es[j].parent == parent && !Copied(g, parent, vd, j)
  }

  /** The copied edges among the first `n`, in order. */
  function SubEdges(g: Graph, parent: string, vd: map<nat, nat>, n: nat): (r: seq<Edge>)
    requires n <= |g.es|
  {
    if n == 0 then []
    else SubEdges(g, parent, vd, n - 1) + (if Copied(g, parent, vd, n - 1) then [CopyEdge(g.es[n - 1], vd)] else [])
  }

  /** The subgraph of the cell named `parent`, or `None` when there is no such cell. */
  function Subgraph(g: Graph, parent: string): Option<Graph>
  {
    match FindByName(g.vs, parent)
    case None => None
    case Some(p) =>
      var ch := Children(g, parent, |g.vs|);
      Some(Graph(SubVertices(g, p, ch), SubEdges(g, parent, VDict(p, ch), |g.es|)))
  }

  /** The subgraph holds the cell and its children, and its ids are its indices. */
  lemma SubgraphIds(g: Graph, parent: string)
    requires Subgraph(g, parent).Some?
    ensures IdsAreIndices(Subgraph(g, parent).value)
    ensures |Subgraph(g, parent).value.vs| == 1 + |Children(g, parent, |g.vs|)|
  {
    var p := FindByName(g.vs, parent).value;
    var ch := Children(g, parent, |g.vs|);
    assert Subgraph(g, parent).value.vs == SubVertices(g, p, ch);
    SubVerticesIds(g, p, ch);
  }

  /** The copied vertices are numbered by their position. */
  lemma SubVerticesIds(g: Graph, p: nat, ch: seq<nat>)
    requires p < |g.vs|
    requires forall k :: 0 <= k < |ch| ==> ch[k] < |g.vs|
    ensures forall i :: 0 <= i < |SubVertices(g, p, ch)| ==> SubVertices(g, p, ch)[i].id == i
  {
    SubVerticesChildren(g, p, ch);
    var vs := SubVertices(g, p, ch);
    forall i | 0 <= i < |vs| ensures vs[i].id == i {
      if i > 0 {
        assert vs[i] == ChildCopy(g.vs[ch[i - 1]], i);
      }
    }
  }

  /** The subgraph's edges join its own vertices. */
  lemma SubgraphWellFormed(g: Graph, parent: string)
    requires Subgraph(g, parent).Some?
    ensures WellFormed(Subgraph(g, parent).value)
  {
    var p := FindByName(g.vs, parent).value;
    var ch := Children(g, parent, |g.vs|);
    var vd := VDict(p, ch);
    assert Subgraph(g, parent).value == Graph(SubVertices(g, p, ch), SubEdges(g, parent, vd, |g.es|));
    VDictKeys(p, ch);
    SubEdgesInRange(g, parent, vd, |g.es|, |ch| + 1);
  }

  /**
   * Names in the subgraph are local: the cell keeps the last segment of its
   * name, and every child has a name without '/' and the cell's local name
   * as parent.
   */
  lemma SubgraphNames(g: Graph, parent: string)
    requires Subgraph(g, parent).Some?
    ensures Subgraph(g, parent).value.vs[0].name == LastSegment(parent)
    ensures forall i :: 1 <= i < |Subgraph(g, parent).value.vs| ==>
      '/' !in Subgraph(g, parent).value.vs[i].name && Subgraph(g, parent).value.vs[i].parent == LastSegment(parent)
  {
    var p := FindByName(g.vs, parent).value;
    var ch := Children(g, parent, |g.vs|);
    var vs := SubVertices(g, p, ch);
    assert Subgraph(g, parent).value.vs == vs;
    SubVerticesChildren(g, p, ch);
    forall i | 1 <= i < |vs|
      ensures '/' !in vs[i].name && vs[i].parent == LastSegment(parent)
    {
      assert vs[i] == ChildCopy(g.vs[ch[i - 1]], i);
    }
  }

  lemma {:induction false} SubEdgesInRange(g: Graph, parent: string, vd: map<nat, nat>, n: nat, bound: nat)
    requires n <= |g.es|
    requires forall x :: x in vd ==> vd[x] < bound
    ensures forall k :: 0 <= k < |SubEdges(g, parent, vd, n)| ==>
      SubEdges(g, parent, vd, n)[k].src < bound && SubEdges(g, parent, vd, n)[k].dst < bound
  {
    if n > 0 {
      SubEdgesInRange(g, parent, vd, n - 1, bound);
    }
  }

  /** Every vertex whose parent is the cell is in the subgraph. */
  lemma SubgraphHasAllChildren(g: Graph, parent: string, j: nat)
    requires Subgraph(g, parent).Some?
    requires j < |g.vs| && g.vs[j].parent == parent
    ensures exists i :: (1 <= i < |Subgraph(g, parent).value.vs| &&
      Subgraph(g, parent).value.vs[i] == ChildCopy(g.vs[j], i))
  {
    var p := FindByName(g.vs, parent).value;
    var ch := Children(g, parent, |g.vs|);
    ChildrenComplete(g, parent, |g.vs|, j);
    var k :| 0 <= k < |ch| && ch[k] == j;
    SubVerticesChildren(g, p, ch);
    assert Subgraph(g, parent).value.vs[k + 1] == ChildCopy(g.vs[j], k + 1);
  }

  /** Every edge of the cell whose ends both landed in the subgraph is copied. */
  lemma {:induction false} SubEdgesComplete(g: Graph, parent: string, vd: map<nat, nat>, n: nat, j: nat)
    requires j < n <= |g.es| && Copied(g, parent, vd, j)
    ensures CopyEdge(g.es[j], vd) in SubEdges(g, parent, vd, n)
  {
    if j < n - 1 {
      SubEdgesComplete(g, parent, vd, n - 1, j);
    }
  }

  /** Every copied edge comes from an edge of the cell. */
  lemma {:induction false} SubEdgesSound(g: Graph, parent: string, vd: map<nat, nat>, n: nat, e: Edge)
    requires n <= |g.es|
    requires e in SubEdges(g, parent, vd, n)
    ensures exists j :: 0 <= j < n && Copied(g, parent, vd, j) && e == CopyEdge(g.es[j], vd)
  {
    if e !in SubEdges(g, parent, vd, n - 1) {
      assert Copied(g, parent, vd, n - 1) && e == CopyEdge(g.es[n - 1], vd);
    } else {
      SubEdgesSound(g, parent, vd, n - 1, e);
    }
  }

  /**
   * `get_module_subgraph`, with the parent of each copied edge cut on the
   * edge just added.
   */
  method GetModuleSubgraph(g: Graph, parent: string) returns (r: Option<Graph>)
    ensures r == Subgraph(g, parent)
  {
    var found := FindByName(g.vs, parent);
    if found.None? {
      return None;
    }
    var p := found.value;
    var vs, vList, vd := SubgraphVertices(g, parent, p);
    var es := SubgraphEdges(g, parent, vd);
    return Some(Graph(vs, es));
  }

  /** The loop over the cell's edges, with `vd` mapping vertices into the subgraph. */
  method SubgraphEdges(g: Graph, parent: string, vd: map<nat, nat>) returns (es: seq<Edge>)
    ensures es == SubEdges(g, parent, vd, |g.es|)
  {
    es := [];
    var j := 0;
    while j < |g.es|
      invariant 0 <= j <= |g.es|
      invariant es == SubEdges(g, parent, vd, j)
    {
      if Copied(g, parent, vd, j) {
        es := es + [CopyEdge(g.es[j], vd)];
      }
      j := j + 1;
    }
  }

  /** The loop over the cell's children; `vList` lists where each subgraph vertex came from. */
  method SubgraphVertices(g: Graph, parent: string, p: nat) returns (vs: seq<Vertex>, vList: seq<nat>, vd: map<nat, nat>)
    requires p < |g.vs|
    ensures vList == [p] + Children(g, parent, |g.vs|)
    ensures VertexLoop(g, p, Children(g, parent, |g.vs|), vs, vd)
  {
    vs := [RootCopy(g.vs[p])];
    vd := map[p := 0];
    vList := [p];
    var i := 1;
    var j := 0;
    while j < |g.vs|
      invariant ChildScan(g, parent, p, j, i, vList, vs, vd)
      decreases |g.vs| - j
    {
      i, vList, vs, vd := ScanChild(g, parent, p, j, i, vList, vs, vd);
      j := j + 1;
    }
  }

  /** One round of the vertex loop: vertex `j` is copied when it is a child of `parent`. */
  method ScanChild(g: Graph, parent: string, p: nat, j: nat, i: nat, vList: seq<nat>,
                   vs: seq<Vertex>, vd: map<nat, nat>)
    returns (i': nat, vList': seq<nat>, vs': seq<Vertex>, vd': map<nat, nat>)
    requires p < |g.vs| && j < |g.vs| && ChildScan(g, parent, p, j, i, vList, vs, vd)
    ensures ChildScan(g, parent, p, j + 1, i', vList', vs', vd')
  {
    if g.vs[j].parent == parent {
      ChildScanAdds(g, parent, p, j, i, vList, vs, vd);
      i', vList', vs', vd' := i + 1, vList + [j], vs + [ChildCopy(g.vs[j], i)], vd[j := i];
    } else {
      ChildScanSkips(g, parent, p, j, i, vList, vs, vd);
      i', vList', vs', vd' := i, vList, vs, vd;
    }
  }

  lemma ChildScanAdds(g: Graph, parent: string, p: nat, j: nat, i: nat, vList: seq<nat>,
                      vs: seq<Vertex>, vd: map<nat, nat>)
    requires p < |g.vs| && j < |g.vs| && ChildScan(g, parent, p, j, i, vList, vs, vd)
    requires g.vs[j].parent == parent
    ensures ChildScan(g, parent, p, j + 1, i + 1, vList + [j], vs + [ChildCopy(g.vs[j], i)], vd[j := i])
  {
    var ch := Children(g, parent, j);
    ChildStep(g, parent, p, j, ch, vs, vd);
    assert [p] + (ch + [j]) == ([p] + ch) + [j] && i == |ch| + 1;
  }

  lemma ChildScanSkips(g: Graph, parent: string, p: nat, j: nat, i: nat, vList: seq<nat>,
                       vs: seq<Vertex>, vd: map<nat, nat>)
    requires p < |g.vs| && j < |g.vs| && ChildScan(g, parent, p, j, i, vList, vs, vd)
    requires g.vs[j].parent != parent
    ensures ChildScan(g, parent, p, j + 1, i, vList, vs, vd)
  {
    assert Children(g, parent, j + 1) == Children(g, parent, j) + [] == Children(g, parent, j);
  }

  /** The state of the vertex loop after its first `j` vertices. */
  ghost predicate ChildScan(g: Graph, parent: string, p: nat, j: nat, i: nat, vList: seq<nat>,
                            vs: seq<Vertex>, vd: map<nat, nat>)
    requires p < |g.vs|
  {
    j <= |g.vs| && vList == [p] + Children(g, parent, j) && i == |vList| &&
    VertexLoop(g, p, Children(g, parent, j), vs, vd)
  }

  /** One more child: how the three results of the vertex loop grow. */
  predicate VertexLoop(g: Graph, p: nat, ch: seq<nat>, vs: seq<Vertex>, vd: map<nat, nat>)
    requires p < |g.vs|
    requires forall k :: 0 <= k < |ch| ==> ch[k] < |g.vs|
  {
    vd == VDict(p, ch) && vs == SubVertices(g, p, ch)
  }

  lemma ChildStep(g: Graph, parent: string, p: nat, j: nat, ch: seq<nat>, vs: seq<Vertex>, vd: map<nat, nat>)
    requires p < |g.vs| && j < |g.vs| && g.vs[j].parent == parent
    requires ch == Children(g, parent, j)
    requires VertexLoop(g, p, ch, vs, vd)
    ensures Children(g, parent, j + 1) == ch + [j]
    ensures VertexLoop(g, p, ch + [j], vs + [ChildCopy(g.vs[j], |ch| + 1)], vd[j := |ch| + 1])
  {
    assert (ch + [j])[..|ch|] == ch;
  }

  /**
   * The edge loop as the source writes it, over the first `n` edges: the
   * parent attribute is cut on `g.es[i]`, where `i` counts every edge of the
   * cell, skipped ones included. Once one edge has been skipped, `i` points
   * past the last edge added and the next copied edge raises an index
   * error. The flag says whether an edge has been skipped.
   */
  function EdgesAsWritten(g: Graph, parent: string, vd: map<nat, nat>, n: nat): (r: Outcome<(seq<Edge>, bool)>)
    requires n <= |g.es|
  {
    if n == 0 then Done(([], false))
    else
      match EdgesAsWritten(g, parent, vd, n - 1)
      case Raises(w) => Raises(w)
      case Done(acc) =>
        if g.es[n - 1].parent != parent then Done(acc)
        else if !Copied(g, parent, vd, n - 1) then Done((acc.0, true))
        else if acc.1 then Raises("edge index out of range")
        else Done((acc.0 + [CopyEdge(g.es[n - 1], vd)], false))
  }

  /** A copied edge after a skipped one: the case the source's edge loop fails on. */
  predicate SkipBeforeCopy(g: Graph, parent: string, vd: map<nat, nat>, n: nat)
    requires n <= |g.es|
  {
    exists k, j :: 0 <= k < j < n && Skipped(g, parent, vd, k) && Copied(g, parent, vd, j)
  }

  /**
   * As written, the loop raises exactly when a copied edge follows a
   * skipped one; otherwise its edges are the intended ones.
   */
  lemma {:induction false} EdgesAsWrittenMeaning(g: Graph, parent: string, vd: map<nat, nat>, n: nat)
    requires n <= |g.es|
    ensures EdgesAsWritten(g, parent, vd, n).Raises? <==> SkipBeforeCopy(g, parent, vd, n)
    ensures EdgesAsWritten(g, parent, vd, n).Done? ==>
      EdgesAsWritten(g, parent, vd, n).value.0 == SubEdges(g, parent, vd, n) &&
      (EdgesAsWritten(g, parent, vd, n).value.1 <==> exists k :: 0 <= k < n && Skipped(g, parent, vd, k))
  {
    if n > 0 {
      var m := n - 1;
      EdgesAsWrittenMeaning(g, parent, vd, m);
      if SkipBeforeCopy(g, parent, vd, m) {
        var k, j :| 0 <= k < j < m && Skipped(g, parent, vd, k) && Copied(g, parent, vd, j);
        assert 0 <= k < j < n;
      } else {
        var acc := EdgesAsWritten(g, parent, vd, m).value;
        if exists k :: 0 <= k < m && Skipped(g, parent, vd, k) {
          var k :| 0 <= k < m && Skipped(g, parent, vd, k);
          assert 0 <= k < n;
          if Copied(g, parent, vd, m) {
            assert 0 <= k < m < n && Skipped(g, parent, vd, k) && Copied(g, parent, vd, m);
          }
        } else {
          assert !acc.1;
          assert forall k :: 0 <= k < n && Skipped(g, parent, vd, k) ==> k == m;
          assert !SkipBeforeCopy(g, parent, vd, n);
          if Skipped(g, parent, vd, m) {
            assert 0 <= m < n && Skipped(g, parent, vd, m);
          }
        }
      }
    }
  }

  /** Once the loop has raised, it stays raised. */
  lemma {:induction false} RaisesPersist(g: Graph, parent: string, vd: map<nat, nat>, j: nat, n: nat)
    requires j <= n <= |g.es|
    requires EdgesAsWritten(g, parent, vd, j).Raises?
    ensures EdgesAsWritten(g, parent, vd, n).Raises?
  {
    if j < n {
      RaisesPersist(g, parent, vd, j, n - 1);
    }
  }

  /** `get_module_subgraph` as written, with the index error as an outcome. */
  method GetModuleSubgraphAsWritten(g: Graph, parent: string) returns (r: Outcome<Option<Graph>>)
    ensures FindByName(g.vs, parent).None? ==> r == Done(None)
    ensures FindByName(g.vs, parent).Some? ==>
      var p := FindByName(g.vs, parent).value;
      var ch := Children(g, parent, |g.vs|);
      match EdgesAsWritten(g, parent, VDict(p, ch), |g.es|)
      case Raises(w) => r.Raises?
      case Done(acc) => r == Done(Some(Graph(SubVertices(g, p, ch), acc.0)))
  {
    var found := FindByName(g.vs, parent);
    if found.None? {
      return Done(None);
    }
    var p := found.value;
    var vs, vList, vd := SubgraphVertices(g, parent, p);
    var es := SubgraphEdgesAsWritten(g, parent, vd);
    match es {
      case Raises(w) => return Raises(w);
      case Done(acc) => return Done(Some(Graph(vs, acc)));
    }
  }

  /** The edge loop as written. */
  method SubgraphEdgesAsWritten(g: Graph, parent: string, vd: map<nat, nat>) returns (r: Outcome<seq<Edge>>)
    ensures EdgesAsWritten(g, parent, vd, |g.es|).Raises? ==> r.Raises?
    ensures EdgesAsWritten(g, parent, vd, |g.es|).Done? ==> r == Done(EdgesAsWritten(g, parent, vd, |g.es|).value.0)
  {
    var es: seq<Edge> := [];
    var skipped := false;
    var i := 0;
    var j := 0;
    while j < |g.es|
      invariant 0 <= j <= |g.es|
      invariant i >= |es| && (skipped <==> i > |es|)
      invariant EdgesAsWritten(g, parent, vd, j) == Done((es, skipped))
    {
      if g.es[j].parent == parent {
        if !Copied(g, parent, vd, j) {
          skipped := true;
        } else {
          var added := es + [g.es[j].(src := vd[g.es[j].src], dst := vd[g.es[j].dst])];
          if i >= |added| {
            assert EdgesAsWritten(g, parent, vd, j + 1).Raises?;
            RaisesPersist(g, parent, vd, j + 1, |g.es|);
            return Raises("edge index out of range");
          }
          assert i == |es| && !skipped;
          es := added[i := added[i].(parent := LastSegment(added[i].parent))];
          assert es == (es[..i] + [CopyEdge(g.es[j], vd)]) && added[..i] == es[..i];
        }
        i := i + 1;
      }
      j := j + 1;
    }
    return Done(es);
  }

  /**
   * A cell "t" with one child "a": the child drives a vertex outside the
   * cell over a net of "t" (skipped), then drives the cell itself (copied).
   */
  function BrokenCell(): Graph
  {
    Graph(
      [Vertex(0, "t", "t", "", Green, "T", Hier([]), None),
       Vertex(1, "a", "t/a", "t", Orange, "L", Leaf(map[]), None),
       Vertex(2, "b", "u/b", "u", Orange, "L", Leaf(map[]), None)],
      [Edge(1, 2, "n", "t", "I", "O", Primitive),
       Edge(1, 0, "m", "t", "I", "O", Port)])
  }

  /** As written the second edge of `BrokenCell` raises; the intended subgraph holds it. */
  lemma SkippedEdgeBreaksSubgraph()
    ensures EdgesAsWritten(BrokenCell(), "t", VDict(0, [1]), 2).Raises?
    ensures Children(BrokenCell(), "t", 3) == [1] && FindByName(BrokenCell().vs, "t") == Some(0)
    ensures SubEdges(BrokenCell(), "t", VDict(0, [1]), 2) == [CopyEdge(BrokenCell().es[1], VDict(0, [1]))]
  {
    var g := BrokenCell();
    assert Children(g, "t", 1) == [];
    assert Children(g, "t", 2) == [1];
    var vd := VDict(0, [1]);
    assert [1][..0] == [];
    assert vd == map[0 := 0, 1 := 1];
    assert !Copied(g, "t", vd, 0) && Copied(g, "t", vd, 1);
    assert EdgesAsWritten(g, "t", vd, 1) == Done(([], true));
    assert SubEdges(g, "t", vd, 1) == [];
  }

  // ---------------------------------------------------------------------
  // User properties

  /** The cell properties of the hierarchical vertices of `vs`, in order. */
  function CellProps(vs: seq<Vertex>): seq<(string, string)>
  {
    if |vs| == 0 then []
    else CellProps(vs[..|vs| - 1]) + (if vs[|vs| - 1].kind.Hier? then vs[|vs| - 1].kind.cell else [])
  }

  /** Each property, name upper-cased, set to a one-element list of its value; a later one wins. */
  function UserProps(props: seq<(string, string)>): (r: map<string, seq<string>>)
    ensures forall k :: k in r ==> |r[k]| == 1
  {
    if |props| == 0 then map[]
    else
      var last := props[|props| - 1];
      UserProps(props[..|props| - 1])[Upper(last.0) := [last.1]]
  }

  /** `get_user_properties(g)`. */
  function GetUserProperties(g: Graph): map<string, seq<string>>
  {
    UserProps(CellProps(g.vs))
  }

  /**
   * A key is present exactly when some property has it as upper-cased name,
   * and holds the value of the last such property.
   */
  lemma UserPropsMeaning(props: seq<(string, string)>, k: string)
    ensures k in UserProps(props) <==> exists j :: 0 <= j < |props| && Upper(props[j].0) == k
    ensures forall j :: (0 <= j < |props| && Upper(props[j].0) == k &&
      (forall l :: j < l < |props| ==> Upper(props[l].0) != k)) ==> UserProps(props)[k] == [props[j].1]
  {
    UserPropsKeys(props, k);
    forall j | 0 <= j < |props| && Upper(props[j].0) == k && (forall l :: j < l < |props| ==> Upper(props[l].0) != k)
      ensures UserProps(props)[k] == [props[j].1]
    {
      UserPropsValue(props, k, j);
    }
  }

  lemma {:induction false} UserPropsKeys(props: seq<(string, string)>, k: string)
    ensures k in UserProps(props) <==> exists j :: 0 <= j < |props| && Upper(props[j].0) == k
    decreases |props|
  {
    if |props| > 0 {
      var m := |props| - 1;
      UserPropsKeys(props[..m], k);
      if Upper(props[m].0) != k {
        if exists j :: 0 <= j < |props| && Upper(props[j].0) == k {
          var j :| 0 <= j < |props| && Upper(props[j].0) == k;
          assert props[..m][j] == props[j];
        }
        if exists j :: 0 <= j < m && Upper(props[..m][j].0) == k {
          var j :| 0 <= j < m && Upper(props[..m][j].0) == k;
          assert props[..m][j] == props[j];
        }
      }
    }
  }

  lemma {:induction false} UserPropsValue(props: seq<(string, string)>, k: string, j: nat)
    requires j < |props| && Upper(props[j].0) == k
    requires forall l :: j < l < |props| ==> Upper(props[l].0) != k
    ensures k in UserProps(props) && UserProps(props)[k] == [props[j].1]
    decreases |props|
  {
    var m := |props| - 1;
    if j < m {
      assert Upper(props[m].0) != k;
      forall l | j < l < m ensures Upper(props[..m][l].0) != k {
        assert props[..m][l] == props[l];
      }
      assert props[..m][j] == props[j];
      UserPropsValue(props[..m], k, j);
    }
  }

  // ---------------------------------------------------------------------
  // Template equality

  const LatchKey: string := "CONFIG.LATCH_OR_FF"

  /**
   * One shared BEL property. The latch flag is never compared. The current
   * comparison also requires the equation text to be equal after it
   * passes `compare_eqn`; the legacy one accepts any equation that passes
   * `compare_eqn`.
   */
  function PropMatches(key: string, a: string, b: string, legacy: bool): (r: bool)
    ensures key == LatchKey ==> r
    ensures key != LatchKey && key != Matcher.EqnKey ==> (r <==> a == b)
  {
    if key == Matcher.EqnKey then CompareEqn(a, b) && (legacy || a == b)
    else if key == LatchKey then true
    else a == b
  }

  /** In the current comparison an equation matches exactly when its text is equal. */
  lemma EqnIsTextual(a: string, b: string)
    ensures PropMatches(Matcher.EqnKey, a, b, false) <==> a == b
  {
    if a == b {
      CompareEqnReflexive(a);
    }
  }

  /** The current comparison is at least as strict as the legacy one. */
  lemma PropMatchesStricter(key: string, a: string, b: string)
    ensures PropMatches(key, a, b, false) ==> PropMatches(key, a, b, true)
  {
  }

  predicate BelMatches(a: map<string, string>, b: map<string, string>, legacy: bool)
  {
    forall p :: p in a && p in b ==> PropMatches(p, a[p], b[p], legacy)
  }

  /**
   * The vertex named `name`: the first vertex of `g2` with that name must
   * exist and have the reference of the first vertex of `g1` with that name;
   * a primitive must also match on its shared BEL properties.
   */
  predicate NameMatches(g1: Graph, g2: Graph, name: string, legacy: bool)
  {
    match FindByName(g2.vs, name)
    case None => false
    case Some(j) =>
      match FindByName(g1.vs, name)
      case None => false
      case Some(i) =>
        g1.vs[i].ref == g2.vs[j].ref &&
        (!g1.vs[i].IsPrimitive() || BelMatches(g1.vs[i].Bel(), g2.vs[j].Bel(), legacy))
  }

  predicate VerticesMatch(g1: Graph, g2: Graph, legacy: bool)
  {
    |g1.vs| == |g2.vs| &&
    forall i :: 0 <= i < |g1.vs| && g1.vs[i].id != 0 ==> NameMatches(g1, g2, g1.vs[i].name, legacy)
  }

  /** Same ends and pins. */
  predicate SameSignature(e: Edge, f: Edge)
  {
    e.src == f.src && e.dst == f.dst && e.inPin == f.inPin && e.outPin == f.outPin
  }

  /** How many edges of `es` have the signature of `e`. */
  function SignatureCount(es: seq<Edge>, e: Edge): (r: nat)
    ensures r <= |es|
  {
    if |es| == 0 then 0
    else SignatureCount(es[..|es| - 1], e) + (if SameSignature(es[|es| - 1], e) then 1 else 0)
  }

  predicate EdgesMatch(g1: Graph, g2: Graph)
  {
    |g1.es| == |g2.es| &&
    forall i :: 0 <= i < |g1.es| ==> SignatureCount(g2.es, g1.es[i]) == 1
  }

  /** `compare_templates` without its side effect on the stored template. */
  predicate TemplatesMatch(g1: Graph, g2: Graph, legacy: bool)
  {
    VerticesMatch(g1, g2, legacy) && EdgesMatch(g1, g2)
  }

  /** Every edge of the new cell occurs exactly once in the template. */
  lemma MatchedEdgesOccurOnce(g1: Graph, g2: Graph, legacy: bool, i: nat)
    requires TemplatesMatch(g1, g2, legacy) && i < |g1.es|
    ensures exists j :: 0 <= j < |g2.es| && SameSignature(g2.es[j], g1.es[i])
    ensures forall j, k :: 0 <= j < k < |g2.es| && SameSignature(g2.es[j], g1.es[i]) ==>
      !SameSignature(g2.es[k], g1.es[i])
  {
    SignatureCountMeaning(g2.es, g1.es[i]);
  }

  lemma {:induction false} SignatureCountMeaning(es: seq<Edge>, e: Edge)
    ensures SignatureCount(es, e) == 0 <==> forall j :: 0 <= j < |es| ==> !SameSignature(es[j], e)
    ensures SignatureCount(es, e) == 1 ==> exists j :: 0 <= j < |es| && SameSignature(es[j], e)
    ensures SignatureCount(es, e) == 1 ==>
      forall j, k :: 0 <= j < k < |es| && SameSignature(es[j], e) ==> !SameSignature(es[k], e)
    decreases |es|
  {
    if |es| > 0 {
      var m := |es| - 1;
      SignatureCountMeaning(es[..m], e);
      assert forall j :: 0 <= j < m ==> es[..m][j] == es[j];
    }
  }

  /** No two edges of `g` share a signature. */
  predicate DistinctSignatures(g: Graph)
  {
    forall j, k :: 0 <= j < k < |g.es| ==> !SameSignature(g.es[j], g.es[k])
  }

  /** A cell matches itself exactly when no two of its edges share a signature. */
  lemma TemplatesMatchReflexive(g: Graph, legacy: bool)
    ensures TemplatesMatch(g, g, legacy) <==> DistinctSignatures(g)
  {
    forall i | 0 <= i < |g.vs| && g.vs[i].id != 0
      ensures NameMatches(g, g, g.vs[i].name, legacy)
    {
      var j := FindByName(g.vs, g.vs[i].name).value;
      forall p | p in g.vs[j].Bel()
        ensures PropMatches(p, g.vs[j].Bel()[p], g.vs[j].Bel()[p], legacy)
      {
        CompareEqnReflexive(g.vs[j].Bel()[p]);
      }
    }
    if DistinctSignatures(g) {
      forall i | 0 <= i < |g.es| ensures SignatureCount(g.es, g.es[i]) == 1 {
        SelfCountOne(g.es, i);
      }
    } else {
      var j, k :| 0 <= j < k < |g.es| && SameSignature(g.es[j], g.es[k]);
      SignatureCountMeaning(g.es, g.es[k]);
      assert SameSignature(g.es[j], g.es[k]) && SameSignature(g.es[k], g.es[k]);
    }
  }

  lemma {:induction false} SelfCountOne(es: seq<Edge>, i: nat)
    requires i < |es|
    requires forall j, k :: 0 <= j < k < |es| ==> !SameSignature(es[j], es[k])
    ensures SignatureCount(es, es[i]) == 1
    decreases |es|
  {
    var m := |es| - 1;
    if i == m {
      SignatureCountMeaning(es[..m], es[i]);
      forall j | 0 <= j < m ensures !SameSignature(es[..m][j], es[i]) {
        assert es[..m][j] == es[j];
      }
    } else {
      assert es[..m][i] == es[i];
      SelfCountOne(es[..m], i);
      assert !SameSignature(es[i], es[m]);
    }
  }

  /** A cell the current comparison accepts, the legacy comparison accepts too. */
  lemma TemplatesMatchStricter(g1: Graph, g2: Graph)
    ensures TemplatesMatch(g1, g2, false) ==> TemplatesMatch(g1, g2, true)
  {
  }

  // ---------------------------------------------------------------------
  // Widening a template's user properties

  /** No value occurs twice in any list. */
  predicate NoDuplicates(props: map<string, seq<string>>)
  {
    forall k, i, j :: k in props && 0 <= i < j < |props[k]| ==> props[k][i] != props[k][j]
  }

  /**
   * `update_user_properties`: every key the template already has and the
   * new cell shares gets the new cell's first value appended when it is
   * not yet listed. No key is added.
   */
  function Widen(t: map<string, seq<string>>, inc: map<string, seq<string>>): (r: map<string, seq<string>>)
    requires forall k :: k in t && k in inc ==> |inc[k]| > 0
    ensures r.Keys == t.Keys
    ensures forall k :: k in t ==> |t[k]| <= |r[k]| <= |t[k]| + 1 && r[k][..|t[k]|] == t[k]
    ensures forall k :: k in t && k in inc ==> inc[k][0] in r[k]
    ensures forall k :: k in t && k !in inc ==> r[k] == t[k]
    ensures NoDuplicates(t) ==> NoDuplicates(r)
  {
    map k | k in t :: if k in inc && inc[k][0] !in t[k] then t[k] + [inc[k][0]] else t[k]
  }

  /** Widening twice with the same cell changes nothing the second time. */
  lemma WidenIdempotent(t: map<string, seq<string>>, inc: map<string, seq<string>>)
    requires forall k :: k in t && k in inc ==> |inc[k]| > 0
    ensures Widen(Widen(t, inc), inc) == Widen(t, inc)
  {
  }
}
