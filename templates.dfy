// The template library: every hierarchical cell of a design is cut out
// as a subgraph and filed under its reference name, either as a new
// version or, when an existing version of that reference accepts it,
// by widening that version's user properties.

module Templates {

  import opened Wrappers
  import opened Netlist
  import opened Library
  import opened Spans

  /** A stored version: the cell's subgraph and what `create_hier_cell` records with it. */
  datatype Template = Template(
    graph: Graph,
    primitiveSpan: seq<seq<int>>,
    span: seq<seq<int>>,
    primitiveCount: nat,
    userProps: map<string, seq<string>>)

  /** How many vertices of `vs` have colour `c`. */
  function CountColor(vs: seq<Vertex>, c: Color): (r: nat)
    ensures r <= |vs|
  {
    if |vs| == 0 then 0
    else CountColor(vs[..|vs| - 1], c) + (if vs[|vs| - 1].color == c then 1 else 0)
  }

  /** The count is zero exactly when no vertex has the colour, and full exactly when all do. */
  lemma {:induction false} CountColorMeaning(vs: seq<Vertex>, c: Color)
    ensures CountColor(vs, c) == 0 <==> forall i :: 0 <= i < |vs| ==> vs[i].color != c
    ensures CountColor(vs, c) == |vs| <==> forall i :: 0 <= i < |vs| ==> vs[i].color == c
    decreases |vs|
  {
    if |vs| > 0 {
      var m := |vs| - 1;
      CountColorMeaning(vs[..m], c);
      assert forall i :: 0 <= i < m ==> vs[..m][i] == vs[i];
    }
  }

  /** What `get_user_properties` produces: every list holds one value. */
  predicate Singletons(up: map<string, seq<string>>)
  {
    forall k :: k in up ==> |up[k]| == 1
  }

  /** `t` is the version `create_hier_cell` builds from `sub` and `up`. */
  ghost predicate Built(t: Template, sub: Graph, up: map<string, seq<string>>)
  {
    t.graph == sub && t.userProps == up &&
    SpansOf(sub, true, t.primitiveSpan) && SpansOf(sub, false, t.span) &&
    t.primitiveCount == CountColor(sub.vs, Orange)
  }

  /**
   * `create_hier_cell`: both span lists, the number of primitive (orange)
   * vertices and the user properties. The version number is the number of
   * versions already stored, which the library supplies by appending.
   */
  method CreateHierCell(sub: Graph, up: map<string, seq<string>>) returns (t: Template)
    ensures Built(t, sub, up)
  {
    var primitiveSpan := GetSpanningTrees(sub, true);
    var span := GetSpanningTrees(sub, false);
    t := Template(sub, primitiveSpan, span, CountColor(sub.vs, Orange), up);
  }

  /** The first version whose graph accepts `sub`. */
  function FirstMatch(sub: Graph, versions: seq<Template>, legacy: bool): (r: Option<nat>)
    ensures r.Some? ==> r.value < |versions| && TemplatesMatch(sub, versions[r.value].graph, legacy)
    ensures r.Some? ==> forall k :: 0 <= k < r.value ==> !TemplatesMatch(sub, versions[k].graph, legacy)
    ensures r.None? ==> forall k :: 0 <= k < |versions| ==> !TemplatesMatch(sub, versions[k].graph, legacy)
  {
    if |versions| == 0 then None
    else if TemplatesMatch(sub, versions[0].graph, legacy) then Some(0)
    else match FirstMatch(sub, versions[1..], legacy)
      case None => None
      case Some(k) => Some(k + 1)
  }

  /** No version accepts the graph of a later one. */
  predicate Deduplicated(versions: seq<Template>, legacy: bool)
  {
    forall i, j :: 0 <= i < j < |versions| ==> !TemplatesMatch(versions[j].graph, versions[i].graph, legacy)
  }

  /** `b` is `a` after some widening: the same cell, each property list extended. */
  predicate Grows(a: Template, b: Template)
  {
    b.graph == a.graph && b.primitiveSpan == a.primitiveSpan && b.span == a.span &&
    b.primitiveCount == a.primitiveCount && b.userProps.Keys == a.userProps.Keys &&
    forall k :: k in a.userProps ==>
      |a.userProps[k]| <= |b.userProps[k]| && b.userProps[k][..|a.userProps[k]|] == a.userProps[k]
  }

  /** Every reference of `t1` is still in `t2`, its versions grown and possibly more appended. */
  predicate Keeps(t1: map<string, seq<Template>>, t2: map<string, seq<Template>>)
  {
    forall r :: r in t1 ==>
      r in t2 && |t1[r]| <= |t2[r]| && forall k :: 0 <= k < |t1[r]| ==> Grows(t1[r][k], t2[r][k])
  }

  lemma GrowsTrans(a: Template, b: Template, c: Template)
    requires Grows(a, b) && Grows(b, c)
    ensures Grows(a, c)
  {
    forall k | k in a.userProps
      ensures c.userProps[k][..|a.userProps[k]|] == a.userProps[k]
    {
      assert c.userProps[k][..|a.userProps[k]|] == c.userProps[k][..|b.userProps[k]|][..|a.userProps[k]|];
    }
  }

  lemma KeepsTrans(t1: map<string, seq<Template>>, t2: map<string, seq<Template>>, t3: map<string, seq<Template>>)
    requires Keeps(t1, t2) && Keeps(t2, t3)
    ensures Keeps(t1, t3)
  {
    forall r, k | r in t1 && 0 <= k < |t1[r]| ensures Grows(t1[r][k], t3[r][k]) {
      GrowsTrans(t1[r][k], t2[r][k], t3[r][k]);
    }
  }

  lemma KeepsReflexive(t: map<string, seq<Template>>)
    ensures Keeps(t, t)
  {
    forall r, k | r in t && 0 <= k < |t[r]| ensures Grows(t[r][k], t[r][k]) {
      var p := t[r][k].userProps;
      assert forall key :: key in p ==> p[key][..|p[key]|] == p[key];
    }
  }

  lemma GrowsReflexive(t: Template)
    ensures Grows(t, t)
  {
    assert forall key :: key in t.userProps ==> t.userProps[key][..|t.userProps[key]|] == t.userProps[key];
  }

  /** Filing a new reference keeps everything else. */
  lemma KeepsNew(lib: map<string, seq<Template>>, ref: string, versions: seq<Template>)
    requires ref !in lib
    ensures Keeps(lib, lib[ref := versions])
  {
    KeepsReflexive(lib);
  }

  /** Replacing a reference's versions by grown ones, possibly with more appended, keeps the library. */
  lemma KeepsPut(lib: map<string, seq<Template>>, ref: string, versions: seq<Template>)
    requires ref in lib && |lib[ref]| <= |versions|
    requires forall k :: 0 <= k < |lib[ref]| ==> Grows(lib[ref][k], versions[k])
    ensures Keeps(lib, lib[ref := versions])
  {
    KeepsReflexive(lib);
  }

  /** Widening a version's user properties grows it. */
  lemma WidenGrows(t: Template, up: map<string, seq<string>>)
    requires Singletons(up)
    ensures Grows(t, t.(userProps := Widen(t.userProps, up)))
  {
  }

  /** The subgraph of each vertex's cell, as `get_module_subgraph` would cut it, by vertex index. */
  function Cells(g: Graph): (r: seq<Option<Graph>>)
    ensures |r| == |g.vs|
  {
    CellsUpTo(g, |g.vs|)
  }

  /** The cells of the first `n` vertices. */
  function CellsUpTo(g: Graph, n: nat): (r: seq<Option<Graph>>)
    requires n <= |g.vs|
    ensures |r| == n
  {
    if n == 0 then [] else CellsUpTo(g, n - 1) + [Subgraph(g, g.vs[n - 1].name)]
  }

  lemma {:induction false} CellsUpToAt(g: Graph, n: nat, i: nat)
    requires i < n <= |g.vs|
    ensures CellsUpTo(g, n)[i] == Subgraph(g, g.vs[i].name)
  {
    if i < n - 1 {
      CellsUpToAt(g, n - 1, i);
    }
  }

  /** Entry `i` of `Cells(g)` is the cell of vertex `i`. */
  lemma CellsAt(g: Graph, i: nat)
    requires i < |g.vs|
    ensures Cells(g)[i] == Subgraph(g, g.vs[i].name)
  {
    CellsUpToAt(g, |g.vs|, i);
  }

  /** The cell `cell`, filed under `ref`, is on file: some version of `ref` is it or accepts it. */
  predicate CellOnFile(lib: map<string, seq<Template>>, ref: string, cell: Option<Graph>, legacy: bool)
  {
    cell.Some? && ref in lib && OnFile(lib[ref], cell.value, legacy)
  }

  /** Some version is `sub` or accepts it. */
  predicate OnFile(versions: seq<Template>, sub: Graph, legacy: bool)
  {
    |versions| > 0 &&
    (OnFile(versions[..|versions| - 1], sub, legacy) || Holds(versions[|versions| - 1], sub, legacy))
  }

  /** Version `t` is `sub` or accepts it. */
  predicate Holds(t: Template, sub: Graph, legacy: bool)
  {
    t.graph == sub || TemplatesMatch(sub, t.graph, legacy)
  }

  lemma {:induction false} OnFileMeaning(versions: seq<Template>, sub: Graph, legacy: bool)
    ensures OnFile(versions, sub, legacy) <==> exists k :: 0 <= k < |versions| && Holds(versions[k], sub, legacy)
  {
    if |versions| > 0 {
      var m := |versions| - 1;
      OnFileMeaning(versions[..m], sub, legacy);
      if exists k :: 0 <= k < |versions| && Holds(versions[k], sub, legacy) {
        var k :| 0 <= k < |versions| && Holds(versions[k], sub, legacy);
        if k < m {
          assert versions[..m][k] == versions[k];
        }
      }
    }
  }

  lemma OnFileAt(versions: seq<Template>, k: nat, sub: Graph, legacy: bool)
    requires k < |versions| && Holds(versions[k], sub, legacy)
    ensures OnFile(versions, sub, legacy)
  {
    OnFileMeaning(versions, sub, legacy);
  }

  /** A cell on file stays on file as the library grows. */
  lemma KeepsCellOnFile(t1: map<string, seq<Template>>, t2: map<string, seq<Template>>, ref: string,
                        cell: Option<Graph>, legacy: bool)
    requires Keeps(t1, t2) && CellOnFile(t1, ref, cell, legacy)
    ensures CellOnFile(t2, ref, cell, legacy)
  {
    OnFileMeaning(t1[ref], cell.value, legacy);
    OnFileMeaning(t2[ref], cell.value, legacy);
    var k :| 0 <= k < |t1[ref]| && Holds(t1[ref][k], cell.value, legacy);
    assert t2[ref][k].graph == t1[ref][k].graph;
  }

  /** Every hierarchical vertex among the first `n` of `g` has its cell (from `cells`) on file. */
  predicate CoversUpTo(lib: map<string, seq<Template>>, g: Graph, cells: seq<Option<Graph>>, n: nat, legacy: bool)
    requires n <= |g.vs| == |cells|
  {
    n == 0 ||
    (CoversUpTo(lib, g, cells, n - 1, legacy) &&
     (g.vs[n - 1].IsPrimitive() || CellOnFile(lib, g.vs[n - 1].ref, cells[n - 1], legacy)))
  }

  lemma {:induction false} CoversUpToMeaning(lib: map<string, seq<Template>>, g: Graph, cells: seq<Option<Graph>>,
                                            n: nat, legacy: bool)
    requires n <= |g.vs| == |cells|
    ensures CoversUpTo(lib, g, cells, n, legacy) <==>
      forall j :: 0 <= j < n && !g.vs[j].IsPrimitive() ==> CellOnFile(lib, g.vs[j].ref, cells[j], legacy)
  {
    if n > 0 {
      CoversUpToMeaning(lib, g, cells, n - 1, legacy);
    }
  }

  lemma {:induction false} KeepsCoversUpTo(t1: map<string, seq<Template>>, t2: map<string, seq<Template>>,
                                          g: Graph, cells: seq<Option<Graph>>, n: nat, legacy: bool)
    requires n <= |g.vs| == |cells| && Keeps(t1, t2) && CoversUpTo(t1, g, cells, n, legacy)
    ensures CoversUpTo(t2, g, cells, n, legacy)
  {
    if n > 0 {
      KeepsCoversUpTo(t1, t2, g, cells, n - 1, legacy);
      if !g.vs[n - 1].IsPrimitive() {
        KeepsCellOnFile(t1, t2, g.vs[n - 1].ref, cells[n - 1], legacy);
      }
    }
  }

  /** Every hierarchical cell of `g` is on file. */
  predicate AllOnFile(lib: map<string, seq<Template>>, g: Graph, legacy: bool)
  {
    CoversUpTo(lib, g, Cells(g), |g.vs|, legacy)
  }

  /** In words: the subgraph of every hierarchical vertex of `g` is on file under the vertex's reference. */
  lemma AllOnFileMeaning(lib: map<string, seq<Template>>, g: Graph, legacy: bool)
    ensures AllOnFile(lib, g, legacy) <==> forall i :: 0 <= i < |g.vs| && !g.vs[i].IsPrimitive() ==>
      CellOnFile(lib, g.vs[i].ref, Subgraph(g, g.vs[i].name), legacy)
  {
    var cells := Cells(g);
    CoversUpToMeaning(lib, g, cells, |g.vs|, legacy);
    forall i | 0 <= i < |g.vs| ensures cells[i] == Subgraph(g, g.vs[i].name) {
      CellsAt(g, i);
    }
  }

  /** The references of the hierarchical vertices among the first `n`. */
  function HierRefs(g: Graph, n: nat): set<string>
    requires n <= |g.vs|
  {
    if n == 0 then {}
    else HierRefs(g, n - 1) + (if g.vs[n - 1].IsPrimitive() then {} else {g.vs[n - 1].ref})
  }

  /** A reference is collected exactly when some hierarchical vertex among the first `n` has it. */
  lemma {:induction false} HierRefsMeaning(g: Graph, n: nat, ref: string)
    requires n <= |g.vs|
    ensures ref in HierRefs(g, n) <==> exists i :: 0 <= i < n && !g.vs[i].IsPrimitive() && g.vs[i].ref == ref
  {
    if n > 0 {
      HierRefsMeaning(g, n - 1, ref);
    }
  }

  /** The references of `cur` are those of `t0` and those of the hierarchical vertices among the first `n`. */
  predicate Collected(t0: map<string, seq<Template>>, cur: map<string, seq<Template>>, g: Graph, n: nat)
  {
    n <= |g.vs| && cur.Keys == t0.Keys + HierRefs(g, n)
  }

  /** How many versions a reference had before a pass: what it had, or the one a new reference gets. */
  function Baseline(before: map<string, seq<Template>>, ref: string): nat
  {
    if ref in before then |before[ref]| else 1
  }

  /** Some reference ended a pass with more versions than its baseline. */
  predicate Grew(before: map<string, seq<Template>>, after: map<string, seq<Template>>)
  {
    exists r :: r in after && |after[r]| > Baseline(before, r)
  }

  /** A step that appends nothing leaves `Grew` as it was. */
  lemma GrewUnchanged(t0: map<string, seq<Template>>, cur: map<string, seq<Template>>,
                      next: map<string, seq<Template>>, ref: string)
    requires t0.Keys <= cur.Keys
    requires next.Keys == cur.Keys + {ref}
    requires forall r :: r in cur ==> |next[r]| == |cur[r]|
    requires ref !in cur ==> |next[ref]| == 1
    ensures Grew(t0, next) <==> Grew(t0, cur)
  {
    if Grew(t0, next) {
      var r :| r in next && |next[r]| > Baseline(t0, r);
      assert r in cur;
    }
    if Grew(t0, cur) {
      var r :| r in cur && |cur[r]| > Baseline(t0, r);
      assert r in next && |next[r]| > Baseline(t0, r);
    }
  }

  /** Every reference has a version, no version accepts a later one, and no property list repeats a value. */
  predicate Tidy(lib: map<string, seq<Template>>, legacy: bool)
  {
    forall r :: r in lib ==> TidyVersions(lib[r], legacy)
  }

  predicate TidyVersions(versions: seq<Template>, legacy: bool)
  {
    |versions| > 0 && Deduplicated(versions, legacy) &&
    forall k :: 0 <= k < |versions| ==> NoDuplicates(versions[k].userProps)
  }

  lemma TidyPut(lib: map<string, seq<Template>>, legacy: bool, ref: string, versions: seq<Template>)
    requires Tidy(lib, legacy) && TidyVersions(versions, legacy)
    ensures Tidy(lib[ref := versions], legacy)
  {
  }

  /** Appending a version no earlier one accepts keeps the versions deduplicated. */
  lemma DedupSnoc(versions: seq<Template>, t: Template, legacy: bool)
    requires Deduplicated(versions, legacy)
    requires forall k :: 0 <= k < |versions| ==> !TemplatesMatch(t.graph, versions[k].graph, legacy)
    ensures Deduplicated(versions + [t], legacy)
  {
  }

  /** Deduplication depends on the graphs only, so widening keeps it. */
  lemma DedupWiden(versions: seq<Template>, k: nat, props: map<string, seq<string>>, legacy: bool)
    requires k < |versions| && Deduplicated(versions, legacy)
    ensures Deduplicated(versions[k := versions[k].(userProps := props)], legacy)
  {
    var w := versions[k := versions[k].(userProps := props)];
    assert forall j :: 0 <= j < |w| ==> w[j].graph == versions[j].graph;
  }

  /** The search loop of `create_templates` over the stored versions of a reference. */
  method FindVersion(sub: Graph, versions: seq<Template>, legacy: bool) returns (r: Option<nat>)
    ensures r == FirstMatch(sub, versions, legacy)
  {
    var k := 0;
    while k < |versions|
      invariant 0 <= k <= |versions|
      invariant forall j :: 0 <= j < k ==> !TemplatesMatch(sub, versions[j].graph, legacy)
    {
      if TemplatesMatch(sub, versions[k].graph, legacy) {
        return Some(k);
      }
      k := k + 1;
    }
    return None;
  }

  /**
   * Files `sub` among the versions of a reference already on file: the
   * first version that accepts it has its user properties widened; only
   * when none does is a new version appended (`appended`).
   */
  method FileVersion(sub: Graph, up: map<string, seq<string>>, versions: seq<Template>, legacy: bool)
    returns (result: seq<Template>, appended: bool)
    requires TidyVersions(versions, legacy) && Singletons(up)
    ensures TidyVersions(result, legacy)
    ensures OnFile(result, sub, legacy)
    ensures |versions| <= |result| && forall k :: 0 <= k < |versions| ==> Grows(versions[k], result[k])
    ensures appended <==> FirstMatch(sub, versions, legacy).None?
    ensures appended ==>
      |result| == |versions| + 1 && result[..|versions|] == versions && Built(result[|versions|], sub, up)
    ensures !appended ==>
      var k := FirstMatch(sub, versions, legacy).value;
      result == versions[k := versions[k].(userProps := Widen(versions[k].userProps, up))]
  {
    var found := FindVersion(sub, versions, legacy);
    if found.Some? {
      var k := found.value;
      var t := versions[k];
      result := versions[k := t.(userProps := Widen(t.userProps, up))];
      DedupWiden(versions, k, Widen(t.userProps, up), legacy);
      forall j | 0 <= j < |versions| ensures Grows(versions[j], result[j]) {
        if j == k {
          WidenGrows(t, up);
        } else {
          GrowsReflexive(versions[j]);
        }
      }
      OnFileAt(result, k, sub, legacy);
      appended := false;
    } else {
      var t := CreateHierCell(sub, up);
      DedupSnoc(versions, t, legacy);
      result := versions + [t];
      assert result[..|versions|] == versions;
      forall j | 0 <= j < |versions| ensures Grows(versions[j], result[j]) {
        GrowsReflexive(versions[j]);
      }
      OnFileAt(result, |versions|, sub, legacy);
      appended := true;
    }
  }

  /** What a `create_templates` pass over the first `n` vertices of `g` has achieved since `t0`. */
  predicate Pass(t0: map<string, seq<Template>>, cur: map<string, seq<Template>>, g: Graph,
                 cells: seq<Option<Graph>>, n: nat, hasNewData: bool, legacy: bool)
    requires |cells| == |g.vs|
  {
    Keeps(t0, cur) && Collected(t0, cur, g, n) &&
    (forall r :: r in cur ==> |cur[r]| >= Baseline(t0, r)) &&
    (hasNewData <==> Grew(t0, cur)) &&
    CoversUpTo(cur, g, cells, n, legacy)
  }

  /**
   * What filing vertex `i` of `g` does to the library, `t0` being the
   * library the pass started from: the library is kept, a hierarchical
   * vertex's reference joins the keys, no reference falls below its
   * baseline, an append makes the pass grow and otherwise growth is as it
   * was, and a hierarchical vertex's cell is on file afterwards.
   */
  ghost predicate VertexFiled(t0: map<string, seq<Template>>, before: map<string, seq<Template>>,
                              after: map<string, seq<Template>>, g: Graph, i: nat, cell: Option<Graph>,
                              appended: bool, legacy: bool)
    requires i < |g.vs|
  {
    Keeps(before, after) &&
    after.Keys == before.Keys + (if g.vs[i].IsPrimitive() then {} else {g.vs[i].ref}) &&
    (forall r :: r in after ==> |after[r]| >= Baseline(t0, r)) &&
    (appended ==> Grew(t0, after)) &&
    (!appended ==> (Grew(t0, after) <==> Grew(t0, before))) &&
    (!g.vs[i].IsPrimitive() ==> CellOnFile(after, g.vs[i].ref, cell, legacy))
  }

  /** One vertex more: what filing vertex `i` promises carries the pass from `i` to `i + 1`. */
  lemma PassStep(t0: map<string, seq<Template>>, before: map<string, seq<Template>>,
                 after: map<string, seq<Template>>, g: Graph, cells: seq<Option<Graph>>, i: nat,
                 hasNewData: bool, appended: bool, legacy: bool)
    requires i < |g.vs| == |cells| && Pass(t0, before, g, cells, i, hasNewData, legacy)
    requires VertexFiled(t0, before, after, g, i, cells[i], appended, legacy)
    ensures Pass(t0, after, g, cells, i + 1, hasNewData || appended, legacy)
  {
    KeepsTrans(t0, before, after);
    KeepsCoversUpTo(before, after, g, cells, i, legacy);
    CollectedStep(t0, before, after, g, i);
    assert Grew(t0, after) == (hasNewData || appended);
  }

  /** Before the first vertex, the pass holds of the library it starts from. */
  lemma PassStarts(t0: map<string, seq<Template>>, g: Graph, cells: seq<Option<Graph>>, legacy: bool)
    requires |cells| == |g.vs|
    ensures Pass(t0, t0, g, cells, 0, false, legacy)
  {
    KeepsReflexive(t0);
  }

  /** A finished pass promises what `create_templates` does. */
  lemma PassEnds(t0: map<string, seq<Template>>, cur: map<string, seq<Template>>, g: Graph,
                 cells: seq<Option<Graph>>, hasNewData: bool, legacy: bool)
    requires cells == Cells(g) && Pass(t0, cur, g, cells, |g.vs|, hasNewData, legacy)
    ensures Keeps(t0, cur) && cur.Keys == t0.Keys + HierRefs(g, |g.vs|)
    ensures hasNewData <==> Grew(t0, cur)
    ensures AllOnFile(cur, g, legacy)
  {
  }

  lemma CollectedStep(t0: map<string, seq<Template>>, before: map<string, seq<Template>>,
                      after: map<string, seq<Template>>, g: Graph, i: nat)
    requires i < |g.vs| && Collected(t0, before, g, i)
    requires after.Keys == before.Keys + (if g.vs[i].IsPrimitive() then {} else {g.vs[i].ref})
    ensures Collected(t0, after, g, i + 1)
  {
    assert HierRefs(g, i + 1) == HierRefs(g, i) + (if g.vs[i].IsPrimitive() then {} else {g.vs[i].ref});
  }

  /**
   * What filing `sub` under `ref` does to the library `before`: the
   * library is kept and gains `ref`; every other reference is unchanged;
   * afterwards `sub` is on file under `ref`. A new reference gets the
   * single version built from `sub`. Otherwise the first version that
   * accepts `sub` has its user properties widened by `up`, and only when
   * none accepts it is a version built from `sub` appended (`appended`).
   */
  ghost predicate CellFiled(before: map<string, seq<Template>>, after: map<string, seq<Template>>, sub: Graph,
                            up: map<string, seq<string>>, ref: string, appended: bool, legacy: bool)
  {
    Singletons(up) && Keeps(before, after) && after.Keys == before.Keys + {ref} &&
    (forall r :: r in before && r != ref ==> after[r] == before[r]) &&
    OnFile(after[ref], sub, legacy) &&
    (ref !in before ==> !appended && |after[ref]| == 1 && Built(after[ref][0], sub, up)) &&
    (ref in before ==> (appended <==> FirstMatch(sub, before[ref], legacy).None?)) &&
    (ref in before && appended ==>
      var n := |before[ref]|;
      |after[ref]| == n + 1 && after[ref][..n] == before[ref] && Built(after[ref][n], sub, up)) &&
    (ref in before && !appended ==>
      var k := FirstMatch(sub, before[ref], legacy).value;
      var t := before[ref][k];
      after[ref] == before[ref][k := t.(userProps := Widen(t.userProps, up))])
  }

  /** Filing under a new reference. */
  lemma FiledNew(lib: map<string, seq<Template>>, sub: Graph, up: map<string, seq<string>>, ref: string,
                 t: Template, legacy: bool)
    requires ref !in lib && Singletons(up) && Built(t, sub, up)
    ensures CellFiled(lib, lib[ref := [t]], sub, up, ref, false, legacy)
  {
    KeepsNew(lib, ref, [t]);
    OnFileAt([t], 0, sub, legacy);
  }

  /** Filing under a reference already on file, by what `file_version` promises. */
  lemma FiledVersion(lib: map<string, seq<Template>>, sub: Graph, up: map<string, seq<string>>, ref: string,
                     versions: seq<Template>, appended: bool, legacy: bool)
    requires ref in lib && Singletons(up) && OnFile(versions, sub, legacy)
    requires |lib[ref]| <= |versions| && forall k :: 0 <= k < |lib[ref]| ==> Grows(lib[ref][k], versions[k])
    requires appended <==> FirstMatch(sub, lib[ref], legacy).None?
    requires appended ==>
      |versions| == |lib[ref]| + 1 && versions[..|lib[ref]|] == lib[ref] && Built(versions[|lib[ref]|], sub, up)
    requires !appended ==>
      var k := FirstMatch(sub, lib[ref], legacy).value;
      versions == lib[ref][k := lib[ref][k].(userProps := Widen(lib[ref][k].userProps, up))]
    ensures CellFiled(lib, lib[ref := versions], sub, up, ref, appended, legacy)
  {
    KeepsPut(lib, ref, versions);
  }

  /** Filing the cell of hierarchical vertex `i` is what the pass asks of that vertex. */
  lemma CellFiledVertex(t0: map<string, seq<Template>>, before: map<string, seq<Template>>,
                        after: map<string, seq<Template>>, g: Graph, i: nat, sub: Graph,
                        up: map<string, seq<string>>, appended: bool, legacy: bool)
    requires i < |g.vs| && !g.vs[i].IsPrimitive() && t0.Keys <= before.Keys
    requires forall r :: r in before ==> |before[r]| >= Baseline(t0, r)
    requires CellFiled(before, after, sub, up, g.vs[i].ref, appended, legacy)
    ensures VertexFiled(t0, before, after, g, i, Some(sub), appended, legacy)
  {
    var ref := g.vs[i].ref;
    if appended {
      assert |after[ref]| > Baseline(t0, ref);
    } else {
      GrewUnchanged(t0, before, after, ref);
    }
  }

  /**
   * The library of `create_templates`: for each reference name, its
   * versions in the order they were created; a version's file number is
   * its index. `legacy` selects the root-level comparison, which accepts
   * any equation `compare_eqn` accepts.
   */
  class TemplateLibrary {
    const legacy: bool
    var templates: map<string, seq<Template>>

    /** Every reference has a version, no version accepts a later one, and no property list repeats a value. */
    ghost predicate Valid()
      reads this
    {
      Tidy(templates, legacy)
    }

    constructor(legacy: bool)
      ensures this.legacy == legacy && templates == map[] && Valid()
    {
      this.legacy := legacy;
      templates := map[];
    }

    /**
     * One iteration of `create_templates`: files `sub` under `ref`; what
     * that does to the library is `CellFiled`.
     */
    method AddCell(sub: Graph, up: map<string, seq<string>>, ref: string) returns (appended: bool)
      requires Valid() && Singletons(up)
      modifies this
      ensures Valid() && CellFiled(old(templates), templates, sub, up, ref, appended, legacy)
    {
      if ref !in templates {
        var t := CreateHierCell(sub, up);
        TidyPut(templates, legacy, ref, [t]);
        FiledNew(templates, sub, up, ref, t, legacy);
        templates := templates[ref := [t]];
        return false;
      }
      var versions;
      versions, appended := FileVersion(sub, up, templates[ref], legacy);
      TidyPut(templates, legacy, ref, versions);
      FiledVersion(templates, sub, up, ref, versions, appended, legacy);
      templates := templates[ref := versions];
    }

    /**
     * `create_templates(g)`: files every hierarchical cell of `g`, in
     * vertex order, with the user properties of the whole design; the
     * result says whether a version was appended to a reference already
     * on file when the pass began or created during it.
     */
    method CreateTemplates(g: Graph) returns (hasNewData: bool)
      requires Valid()
      modifies this
      ensures Valid()
      ensures Keeps(old(templates), templates)
      ensures templates.Keys == old(templates).Keys + HierRefs(g, |g.vs|)
      ensures hasNewData <==> Grew(old(templates), templates)
      ensures AllOnFile(templates, g, legacy)
    {
      ghost var t0 := templates;
      hasNewData := PassAll(g, t0);
      assert Pass(t0, templates, g, Cells(g), |g.vs|, hasNewData, legacy);
      PassEnds(t0, templates, g, Cells(g), hasNewData, legacy);
    }

    /** The loop of `create_templates` over the vertices of `g`, `t0` the library it starts from. */
    method PassAll(g: Graph, ghost t0: map<string, seq<Template>>) returns (hasNewData: bool)
      requires Valid() && templates == t0
      modifies this
      ensures Passing(g, t0, |g.vs|, hasNewData)
    {
      hasNewData := false;
      PassStarts(t0, g, Cells(g), legacy);
      var i := 0;
      while i < |g.vs|
        invariant Passing(g, t0, i, hasNewData)
        decreases |g.vs| - i
      {
        hasNewData := PassVertex(g, i, t0, hasNewData);
        i := i + 1;
      }
    }

    /** The state of the `create_templates` loop after its first `i` vertices. */
    ghost predicate Passing(g: Graph, t0: map<string, seq<Template>>, i: nat, hasNewData: bool)
      reads this
    {
      i <= |g.vs| && Valid() && Pass(t0, templates, g, Cells(g), i, hasNewData, legacy)
    }

    /** One round of the `create_templates` loop, carrying the pass from vertex `i` to `i + 1`. */
    method PassVertex(g: Graph, i: nat, ghost t0: map<string, seq<Template>>, hasNewData: bool)
      returns (hasNewData': bool)
      requires i < |g.vs| && Passing(g, t0, i, hasNewData)
      modifies this
      ensures Passing(g, t0, i + 1, hasNewData')
    {
      ghost var before := templates;
      ghost var cells := Cells(g);
      CellsAt(g, i);
      var appended := FileVertex(g, i, t0, cells[i]);
      PassStep(t0, before, templates, g, cells, i, hasNewData, appended, legacy);
      hasNewData' := hasNewData || appended;
    }

    /**
     * The body of the `create_templates` loop for vertex `i`: a
     * hierarchical vertex is filed with the design's user properties; a
     * primitive is passed over. `t0` is the library as the pass found it.
     */
    method FileVertex(g: Graph, i: nat, ghost t0: map<string, seq<Template>>, ghost cell: Option<Graph>)
      returns (appended: bool)
      requires Valid() && i < |g.vs| && cell == Subgraph(g, g.vs[i].name)
      requires t0.Keys <= templates.Keys
      requires forall r :: r in templates ==> |templates[r]| >= Baseline(t0, r)
      modifies this
      ensures Valid() && VertexFiled(t0, old(templates), templates, g, i, cell, appended, legacy)
    {
      if g.vs[i].IsPrimitive() {
        KeepsReflexive(templates);
        return false;
      }
      var v := g.vs[i];
      var sub := GetModuleSubgraph(g, v.name);
      assert FindByName(g.vs, v.name).Some?;
      var up := GetUserProperties(g);
      ghost var before := templates;
      appended := AddCell(sub.value, up, v.ref);
      CellFiledVertex(t0, before, templates, g, i, sub.value, up, appended, legacy);
    }

    /**
     * `create_submodules`: `create_templates` over every design in turn;
     * the flag of each pass is dropped.
     */
    method CreateSubmodules(designs: seq<Graph>)
      requires Valid()
      modifies this
      ensures Valid()
      ensures Keeps(old(templates), templates)
      ensures forall d :: 0 <= d < |designs| ==> AllOnFile(templates, designs[d], legacy)
    {
      ghost var t0 := templates;
      KeepsReflexive(templates);
      var d := 0;
      while d < |designs|
        invariant Submoduled(t0, designs, d)
        decreases |designs| - d
      {
        SubmoduleStep(t0, designs, d);
        d := d + 1;
      }
    }

    /** The state of the `create_submodules` loop after its first `d` designs, `t0` the library it started from. */
    ghost predicate Submoduled(t0: map<string, seq<Template>>, designs: seq<Graph>, d: nat)
      reads this
    {
      d <= |designs| && Valid() && Keeps(t0, templates) &&
      forall e :: 0 <= e < d ==> AllOnFile(templates, designs[e], legacy)
    }

    /** One round of the `create_submodules` loop: the pass over design `d`. */
    method SubmoduleStep(ghost t0: map<string, seq<Template>>, designs: seq<Graph>, d: nat)
      requires d < |designs| && Submoduled(t0, designs, d)
      modifies this
      ensures Submoduled(t0, designs, d + 1)
    {
      ghost var before := templates;
      var _ := CreateTemplates(designs[d]);
      KeepsTrans(t0, before, templates);
      forall e | 0 <= e < d ensures AllOnFile(templates, designs[e], legacy) {
        KeepsCoversUpTo(before, templates, designs[e], Cells(designs[e]), |designs[e].vs|, legacy);
      }
    }
  }

  // ---------------------------------------------------------------------
  // The manifest `init_templates` writes

  /** One span of a version: its vertex ids and their number. */
  datatype SpanEntry = SpanEntry(indices: seq<int>, size: nat, matches: seq<int>)

  /** One version as listed: its graph, its primitive-only spans and its primitive count. */
  datatype Entry = Entry(graph: Graph, span: seq<SpanEntry>, primitiveCount: nat)

  function SpanEntries(spans: seq<seq<int>>): seq<SpanEntry>
  {
    seq(|spans|, k requires 0 <= k < |spans| => SpanEntry(spans[k], |spans[k]|, []))
  }

  function ListEntry(t: Template): Entry
  {
    Entry(t.graph, SpanEntries(t.primitiveSpan), t.primitiveCount)
  }

  /** The versions of each reference, in order. */
  function Catalog(lib: map<string, seq<Template>>): map<string, seq<Entry>>
  {
    map r | r in lib :: seq(|lib[r]|, k requires 0 <= k < |lib[r]| => ListEntry(lib[r][k]))
  }

  /**
   * The listed spans are the primitive-only spans, in order, each with its
   * size; graphs and primitive counts are carried over.
   */
  lemma CatalogMeaning(lib: map<string, seq<Template>>, r: string, k: nat, s: nat)
    requires r in lib && k < |lib[r]|
    ensures r in Catalog(lib) && |Catalog(lib)[r]| == |lib[r]|
    ensures Catalog(lib)[r][k].graph == lib[r][k].graph
    ensures Catalog(lib)[r][k].primitiveCount == lib[r][k].primitiveCount
    ensures |Catalog(lib)[r][k].span| == |lib[r][k].primitiveSpan|
    ensures s < |lib[r][k].primitiveSpan| ==>
      var e := Catalog(lib)[r][k].span[s];
      e.indices == lib[r][k].primitiveSpan[s] && e.size == |e.indices| && e.matches == []
  {
  }

  /** A vertex `init_templates` records as used: hierarchical and not the root. */
  predicate UsedVertex(v: Vertex)
  {
    !v.IsPrimitive() && v.id != 0
  }

  /** Reference `u` occurs inside some version of `x`. */
  predicate UsedIn(lib: map<string, seq<Template>>, x: string, u: string)
    requires x in lib
  {
    exists k, i :: 0 <= k < |lib[x]| && 0 <= i < |lib[x][k].graph.vs| &&
      UsedVertex(lib[x][k].graph.vs[i]) && lib[x][k].graph.vs[i].ref == u
  }

  /** The references used inside the versions of `x`. */
  function UsesOf(versions: seq<Template>): set<string>
  {
    set k, i | 0 <= k < |versions| && 0 <= i < |versions[k].graph.vs| && UsedVertex(versions[k].graph.vs[i])
      :: versions[k].graph.vs[i].ref
  }

  /**
   * The `used` part of the manifest: for each reference, the references
   * whose versions contain it. The source removes duplicates with a set,
   * so no order is promised and the model keeps the set.
   */
  function Used(lib: map<string, seq<Template>>): map<string, set<string>>
  {
    var all := set x, u | x in lib && u in UsesOf(lib[x]) :: u;
    map u | u in all :: set x | x in lib && u in UsesOf(lib[x])
  }

  /** `u` lists `x` exactly when `u` occurs inside a version of `x`, and only used references are keys. */
  lemma UsedMeaning(lib: map<string, seq<Template>>, u: string, x: string)
    ensures u in Used(lib) <==> exists y :: y in lib && UsedIn(lib, y, u)
    ensures x in lib ==> (u in Used(lib) && x in Used(lib)[u] <==> UsedIn(lib, x, u))
  {
    forall y | y in lib ensures u in UsesOf(lib[y]) <==> UsedIn(lib, y, u) {
      if UsedIn(lib, y, u) {
        var k, i :| 0 <= k < |lib[y]| && 0 <= i < |lib[y][k].graph.vs| &&
          UsedVertex(lib[y][k].graph.vs[i]) && lib[y][k].graph.vs[i].ref == u;
        assert u in UsesOf(lib[y]);
      }
    }
  }
}
