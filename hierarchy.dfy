// The hierarchy tree `print_json_map` writes to `design.json`: one node
// per hierarchical name, with the primitives found there listed under
// `LEAF`.

module Hierarchy {
  import opened Wrappers
  import opened Netlist
  import opened Text

  /** A node of the tree: its `LEAF` list and its child nodes by name segment. */
  datatype Tree = Node(leaf: seq<string>, kids: map<string, Tree>)

  /** `{"LEAF": []}`. */
  const Fresh: Tree := Node([], map[])

  /** What is done at the end of a walk: append a leaf, replace a child by a fresh node, or nothing. */
  datatype Op = AddLeaf(x: string) | Reset(x: string) | Stay

  /** The node at `path` below `t`, when every segment of it exists. */
  function At(t: Tree, path: seq<string>): Option<Tree>
    decreases |path|
  {
    if |path| == 0 then Some(t)
    else if path[0] in t.kids then At(t.kids[path[0]], path[1..])
    else None
  }

  /** `x` is listed in the `LEAF` of the node at `path`. */
  predicate LeafAt(t: Tree, path: seq<string>, x: string)
  {
    At(t, path).Some? && x in At(t, path).value.leaf
  }

  /** Every node of `a` is still in `b`, with at least its leaves. */
  ghost predicate Keeps(a: Tree, b: Tree)
  {
    forall path :: At(a, path).Some? ==>
      At(b, path).Some? && forall x :: x in At(a, path).value.leaf ==> x in At(b, path).value.leaf
  }

  /** The operation at the end of a walk. */
  function Apply(t: Tree, op: Op): Tree
  {
    match op
    case AddLeaf(x) => t.(leaf := t.leaf + [x])
    case Reset(x) => t.(kids := t.kids[x := Fresh])
    case Stay => t
  }

  /**
   * The walk of `print_json_map` down `path`, creating each missing node
   * as `{"LEAF": []}` (`setdefault`, or the legacy `if H not in D`), and
   * `op` at the node reached.
   */
  function Edit(t: Tree, path: seq<string>, op: Op): Tree
    decreases |path|
  {
    if |path| == 0 then Apply(t, op)
    else
      var child := if path[0] in t.kids then t.kids[path[0]] else Fresh;
      t.(kids := t.kids[path[0] := Edit(child, path[1..], op)])
  }

  /** A walk that neither resets a child loses nothing already in the tree. */
  lemma {:induction false} EditKeeps(t: Tree, path: seq<string>, op: Op)
    requires !op.Reset?
    ensures Keeps(t, Edit(t, path, op))
    decreases |path|
  {
    var r := Edit(t, path, op);
    if |path| == 0 {
      forall p | At(t, p).Some?
        ensures At(r, p).Some? && forall x :: x in At(t, p).value.leaf ==> x in At(r, p).value.leaf
      {
        AtSame(t, r, p);
      }
    } else {
      var child := if path[0] in t.kids then t.kids[path[0]] else Fresh;
      EditKeeps(child, path[1..], op);
      forall p | At(t, p).Some?
        ensures At(r, p).Some? && forall x :: x in At(t, p).value.leaf ==> x in At(r, p).value.leaf
      {
        if |p| > 0 && p[0] == path[0] {
          assert At(t, p) == At(child, p[1..]);
        } else if |p| > 0 {
          assert At(r, p) == At(t, p);
        }
      }
    }
  }

  /** An append or nothing at the root keeps every node below it and adds to its own leaves. */
  lemma {:induction false} AtSame(t: Tree, r: Tree, p: seq<string>)
    requires r.kids == t.kids && forall x :: x in t.leaf ==> x in r.leaf
    requires At(t, p).Some?
    ensures At(r, p).Some? && forall x :: x in At(t, p).value.leaf ==> x in At(r, p).value.leaf
  {
    if |p| > 0 {
      assert At(r, p) == At(t, p);
    }
  }

  /** The walk reaches `path`, and an appended leaf is listed there. */
  lemma {:induction false} EditReaches(t: Tree, path: seq<string>, op: Op)
    ensures At(Edit(t, path, op), path).Some?
    ensures op.AddLeaf? ==> LeafAt(Edit(t, path, op), path, op.x)
    decreases |path|
  {
    if |path| > 0 {
      var child := if path[0] in t.kids then t.kids[path[0]] else Fresh;
      EditReaches(child, path[1..], op);
    }
  }

  /** The segments of a name before the last one. */
  function Init(segs: seq<string>): seq<string>
    requires |segs| >= 1
  {
    segs[..|segs| - 1]
  }

  /**
   * One vertex of the src `print_json_map`: an orange vertex's last name
   * segment is listed under its parent path; a green vertex's whole path
   * becomes a node, keeping whatever is already there.
   */
  function Step(t: Tree, v: Vertex): Tree
  {
    var segs := Segments(v.name);
    match v.color
    case Orange => Edit(t, Init(segs), AddLeaf(segs[|segs| - 1]))
    case Green => Edit(t, segs, Stay)
    case _ => t
  }

  /** The tree after the vertices `vs`, in order. */
  function Build(vs: seq<Vertex>): Tree
  {
    if |vs| == 0 then Fresh else Step(Build(vs[..|vs| - 1]), vs[|vs| - 1])
  }

  /** The src step loses nothing already in the tree. */
  lemma StepKeeps(t: Tree, v: Vertex)
    ensures Keeps(t, Step(t, v))
  {
    var segs := Segments(v.name);
    match v.color
    case Orange => EditKeeps(t, Init(segs), AddLeaf(segs[|segs| - 1]));
    case Green => EditKeeps(t, segs, Stay);
    case _ =>
  }

  /** A vertex shows in the tree the way its colour asks. */
  ghost predicate Shown(t: Tree, v: Vertex)
  {
    var segs := Segments(v.name);
    (v.color == Orange ==> LeafAt(t, Init(segs), segs[|segs| - 1])) &&
    (v.color == Green ==> At(t, segs).Some?)
  }

  /** What shows stays shown once the tree only grows. */
  lemma ShownKept(a: Tree, b: Tree, v: Vertex)
    requires Shown(a, v) && Keeps(a, b)
    ensures Shown(b, v)
  {
    var segs := Segments(v.name);
    if v.color == Orange {
      assert At(a, Init(segs)).Some?;
    }
    if v.color == Green {
      assert At(a, segs).Some?;
    }
  }

  /** A vertex shows in the tree right after its own step. */
  lemma StepShows(t: Tree, v: Vertex)
    ensures Shown(Step(t, v), v)
  {
    var segs := Segments(v.name);
    match v.color
    case Orange => EditReaches(t, Init(segs), AddLeaf(segs[|segs| - 1]));
    case Green => EditReaches(t, segs, Stay);
    case _ =>
  }

  /** A vertex shown before a step is still shown after it. */
  lemma StepKeepsShown(t: Tree, v: Vertex, w: Vertex)
    requires Shown(t, w)
    ensures Shown(Step(t, v), w)
  {
    StepKeeps(t, v);
    ShownKept(t, Step(t, v), w);
  }

  /**
   * Every orange vertex is listed under its parent path and every green
   * vertex's path is a node, whatever the order of the vertices.
   */
  lemma {:induction false} BuildShowsAll(vs: seq<Vertex>)
    ensures forall i :: 0 <= i < |vs| ==> Shown(Build(vs), vs[i])
  {
    if |vs| > 0 {
      var n := |vs| - 1;
      var before := Build(vs[..n]);
      assert Build(vs) == Step(before, vs[n]);
      BuildShowsAll(vs[..n]);
      forall i | 0 <= i < |vs|
        ensures Shown(Step(before, vs[n]), vs[i])
      {
        if i < n {
          assert vs[..n][i] == vs[i];
          assert Shown(before, vs[i]);
          StepKeepsShown(before, vs[n], vs[i]);
        } else {
          assert i == n;
          StepShows(before, vs[n]);
        }
      }
    }
  }

  /** `print_json_map`: the tree built one vertex after another. */
  method PrintJsonMap(vs: seq<Vertex>) returns (design: Tree)
    ensures design == Build(vs)
    ensures forall i :: 0 <= i < |vs| ==> Shown(design, vs[i])
  {
    design := Fresh;
    for k := 0 to |vs|
      invariant design == Build(vs[..k])
    {
      assert vs[..k + 1][..k] == vs[..k];
      design := Step(design, vs[k]);
    }
    assert vs[..|vs|] == vs;
    BuildShowsAll(vs);
  }

  /**
   * One vertex of the legacy `print_json_map`: every vertex walks its
   * parent path, creating nodes; an orange vertex appends its last
   * segment there, and a green vertex puts a fresh node under its last
   * segment, replacing any node already there.
   */
  function LegacyStep(t: Tree, v: Vertex): Tree
  {
    var segs := Segments(v.name);
    var last := segs[|segs| - 1];
    match v.color
    case Orange => Edit(t, Init(segs), AddLeaf(last))
    case Green => Edit(t, Init(segs), Reset(last))
    case _ => Edit(t, Init(segs), Stay)
  }

  /** The legacy tree after the vertices `vs`, in order. */
  function LegacyBuild(vs: seq<Vertex>): Tree
  {
    if |vs| == 0 then Fresh else LegacyStep(LegacyBuild(vs[..|vs| - 1]), vs[|vs| - 1])
  }

  /** A vertex with only a name and a colour. */
  function Named(name: string, c: Color): Vertex
  {
    Vertex(0, "", name, "", c, "", Hier([]), None)
  }

  /** A name without '/' is one segment. */
  lemma SegmentsOne(p: string)
    requires '/' !in p
    ensures Segments(p) == [p]
  {
    var k := LastIndexOf(p, '/');
  }

  /** `p/x`, with neither part holding '/', splits into `p` and `x`. */
  lemma SegmentsTwo(p: string, x: string)
    requires '/' !in p && '/' !in x
    ensures Segments(p + "/" + x) == [p, x]
  {
    var s := p + "/" + x;
    var k := LastIndexOf(s, '/');
    assert s[|p|] == '/';
    assert k == |p|;
    assert s[..k] == p && s[k + 1..] == x;
    SegmentsOne(p);
  }

  /** The two trees of the counterexample below, on segments alone. */
  lemma ResetDropsLeaf(p: string, x: string)
    ensures Edit(Edit(Fresh, [p], AddLeaf(x)), [], Reset(p)) == Node([], map[p := Fresh])
    ensures Edit(Edit(Fresh, [p], AddLeaf(x)), [p], Stay) == Edit(Fresh, [p], AddLeaf(x))
    ensures LeafAt(Edit(Fresh, [p], AddLeaf(x)), [p], x)
    ensures !LeafAt(Node([], map[p := Fresh]), [p], x)
  {
    var t1 := Node([], map[p := Node([x], map[])]);
    assert [p][1..] == [];
    assert Edit(Fresh, [], AddLeaf(x)) == Node([x], map[]);
    assert Edit(Fresh, [p], AddLeaf(x)) == t1;
    assert t1.kids[p := Fresh] == map[p := Fresh];
    assert At(t1, [p]) == Some(Node([x], map[]));
    assert At(Node([], map[p := Fresh]), [p]) == Some(Fresh);
  }

  /** The steps for a green cell `p` at the top of the hierarchy. */
  lemma GreenSteps(t: Tree, p: string)
    requires '/' !in p
    ensures Step(t, Named(p, Green)) == Edit(t, [p], Stay)
    ensures LegacyStep(t, Named(p, Green)) == Edit(t, [], Reset(p))
  {
    var v := Named(p, Green);
    assert v.name == p && v.color == Green;
    var segs := Segments(p);
    SegmentsOne(p);
    assert segs == [p] && Init(segs) == [];
  }

  /** The steps for a primitive `p/x`. */
  lemma OrangeSteps(t: Tree, p: string, x: string)
    requires '/' !in p && '/' !in x
    ensures Step(t, Named(p + "/" + x, Orange)) == Edit(t, [p], AddLeaf(x))
    ensures LegacyStep(t, Named(p + "/" + x, Orange)) == Edit(t, [p], AddLeaf(x))
  {
    var v := Named(p + "/" + x, Orange);
    assert v.name == p + "/" + x && v.color == Orange;
    var segs := Segments(p + "/" + x);
    SegmentsTwo(p, x);
    assert segs == [p, x] && Init(segs) == [p];
  }

  /**
   * A primitive `p/x` met before its green parent `p`: the legacy walk
   * lists `x` under `p`, then replaces node `p` by a fresh one, so `x` is
   * gone; the src walk keeps it.
   */
  lemma LegacyLosesLeaf(p: string, x: string)
    requires '/' !in p && '/' !in x
    ensures !LeafAt(LegacyBuild([Named(p + "/" + x, Orange), Named(p, Green)]), [p], x)
    ensures LeafAt(Build([Named(p + "/" + x, Orange), Named(p, Green)]), [p], x)
  {
    var vs := [Named(p + "/" + x, Orange), Named(p, Green)];
    assert vs[..1] == [vs[0]] && [vs[0]][..0] == [];
    var t1 := Edit(Fresh, [p], AddLeaf(x));
    OrangeSteps(Fresh, p, x);
    GreenSteps(t1, p);
    ResetDropsLeaf(p, x);
    assert LegacyBuild(vs[..1]) == t1;
    assert Build(vs[..1]) == t1;
  }
}
