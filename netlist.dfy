// The attributed directed multigraph that every stage works on: one
// vertex per cell, one edge per driver-to-endpoint connection, stored as
// two arenas indexed from 0 the way igraph numbers vertices and edges.

module Netlist {

  import opened Wrappers

  /** Vertex colours: primitive, hierarchical, I/O buffer, replaced. */
  datatype Color = Orange | Green | Blue | Black

  /** Edge signal classes. */
  datatype Signal = Const0 | Const1 | Primitive | Port

  /** The text each signal class has inside an edge signature key. */
  function SignalName(s: Signal): (r: string)
    ensures r != ""
  {
    match s
    case Const0 => "CONST0"
    case Const1 => "CONST1"
    case Primitive => "primitive"
    case Port => "port"
  }

  lemma SignalNameInjective(a: Signal, b: Signal)
    requires SignalName(a) == SignalName(b)
    ensures a == b
  {
  }

  /**
   * What kind of cell a vertex stands for. A primitive carries its BEL
   * properties (compared by name); a hierarchical cell carries its cell
   * properties in the order the netlist lists them.
   */
  datatype Kind =
    | Leaf(bel: map<string, string>)
    | Hier(cell: seq<(string, string)>)

  datatype Vertex = Vertex(
    id: int,
    caption: string,
    name: string,
    parent: string,
    color: Color,
    ref: string,
    kind: Kind,
    cellName: Option<string>)
  {
    predicate IsPrimitive() { kind.Leaf? }

    /** The BEL properties; a hierarchical cell has none. */
    function Bel(): map<string, string>
    {
      if kind.Leaf? then kind.bel else map[]
    }
  }

  /** An edge from `src`'s output pin `outPin` to `dst`'s input pin `inPin`. */
  datatype Edge = Edge(
    src: nat,
    dst: nat,
    name: string,
    parent: string,
    inPin: string,
    outPin: string,
    signal: Signal)

  datatype Graph = Graph(vs: seq<Vertex>, es: seq<Edge>)

  /** Every edge joins two vertices of the graph. */
  predicate WellFormed(g: Graph)
  {
    forall e :: 0 <= e < |g.es| ==> g.es[e].src < |g.vs| && g.es[e].dst < |g.vs|
  }

  /** Every vertex's `id` attribute equals its index. */
  predicate IdsAreIndices(g: Graph)
  {
    forall i :: 0 <= i < |g.vs| ==> g.vs[i].id == i
  }

  /** Indices, from `from` on, of the edges from `s` to `t`, ascending. */
  function EdgesBetween(g: Graph, s: nat, t: nat, from: nat): (r: seq<nat>)
    ensures forall k :: 0 <= k < |r| ==>
      from <= r[k] < |g.es| && g.es[r[k]].src == s && g.es[r[k]].dst == t
    ensures forall k, l :: 0 <= k < l < |r| ==> r[k] < r[l]
    decreases |g.es| - from
  {
    if from >= |g.es| then []
    else if g.es[from].src == s && g.es[from].dst == t then [from] + EdgesBetween(g, s, t, from + 1)
    else EdgesBetween(g, s, t, from + 1)
  }

  lemma {:induction false} EdgesBetweenComplete(g: Graph, s: nat, t: nat, from: nat, e: nat)
    requires from <= e < |g.es| && g.es[e].src == s && g.es[e].dst == t
    ensures e in EdgesBetween(g, s, t, from)
    decreases |g.es| - from
  {
    if from < e {
      EdgesBetweenComplete(g, s, t, from + 1, e);
    }
  }

  function InEdgesFrom(g: Graph, v: nat, s: nat): (r: seq<nat>)
    ensures forall k :: 0 <= k < |r| ==>
      r[k] < |g.es| && g.es[r[k]].dst == v && s <= g.es[r[k]].src < |g.vs|
    decreases |g.vs| - s
  {
    if s >= |g.vs| then [] else EdgesBetween(g, s, v, 0) + InEdgesFrom(g, v, s + 1)
  }

  function OutEdgesFrom(g: Graph, v: nat, t: nat): (r: seq<nat>)
    ensures forall k :: 0 <= k < |r| ==>
      r[k] < |g.es| && g.es[r[k]].src == v && t <= g.es[r[k]].dst < |g.vs|
    decreases |g.vs| - t
  {
    if t >= |g.vs| then [] else EdgesBetween(g, v, t, 0) + OutEdgesFrom(g, v, t + 1)
  }

  /**
   * `v.in_edges()`: igraph lists the edges into `v` ordered by their
   * source vertex, edges from the same source by edge index.
   */
  function InEdges(g: Graph, v: nat): (r: seq<nat>)
    ensures forall k :: 0 <= k < |r| ==>
      r[k] < |g.es| && g.es[r[k]].dst == v && g.es[r[k]].src < |g.vs|
  {
    InEdgesFrom(g, v, 0)
  }

  /** `v.out_edges()`: ordered by target vertex, then by edge index. */
  function OutEdges(g: Graph, v: nat): (r: seq<nat>)
    ensures forall k :: 0 <= k < |r| ==>
      r[k] < |g.es| && g.es[r[k]].src == v && g.es[r[k]].dst < |g.vs|
  {
    OutEdgesFrom(g, v, 0)
  }

  lemma {:induction false} InEdgesFromComplete(g: Graph, v: nat, s: nat, e: nat)
    requires e < |g.es| && g.es[e].dst == v && s <= g.es[e].src < |g.vs|
    ensures e in InEdgesFrom(g, v, s)
    decreases |g.vs| - s
  {
    if g.es[e].src == s {
      EdgesBetweenComplete(g, s, v, 0, e);
    } else {
      InEdgesFromComplete(g, v, s + 1, e);
    }
  }

  lemma {:induction false} OutEdgesFromComplete(g: Graph, v: nat, t: nat, e: nat)
    requires e < |g.es| && g.es[e].src == v && t <= g.es[e].dst < |g.vs|
    ensures e in OutEdgesFrom(g, v, t)
    decreases |g.vs| - t
  {
    if g.es[e].dst == t {
      EdgesBetweenComplete(g, v, t, 0, e);
    } else {
      OutEdgesFromComplete(g, v, t + 1, e);
    }
  }

  /** Every edge into `v` of a well-formed graph is listed by `InEdges`. */
  lemma InEdgesComplete(g: Graph, v: nat, e: nat)
    requires WellFormed(g)
    requires e < |g.es| && g.es[e].dst == v
    ensures e in InEdges(g, v)
  {
    InEdgesFromComplete(g, v, 0, e);
  }

  /** Every edge out of `v` of a well-formed graph is listed by `OutEdges`. */
  lemma OutEdgesComplete(g: Graph, v: nat, e: nat)
    requires WellFormed(g)
    requires e < |g.es| && g.es[e].src == v
    ensures e in OutEdges(g, v)
  {
    OutEdgesFromComplete(g, v, 0, e);
  }

  /** Some edge joins `x` and `y`, in either direction. */
  predicate Adjacent(g: Graph, x: nat, y: nat)
  {
    exists e :: 0 <= e < |g.es| &&
      ((g.es[e].src == x && g.es[e].dst == y) || (g.es[e].src == y && g.es[e].dst == x))
  }

  /** `g.vs.find(name=n)`: the first vertex with that name. */
  function FindByName(vs: seq<Vertex>, n: string): (r: Option<nat>)
    ensures r.Some? ==> r.value < |vs| && vs[r.value].name == n
    ensures r.Some? ==> forall j :: 0 <= j < r.value ==> vs[j].name != n
    ensures r.None? ==> forall j :: 0 <= j < |vs| ==> vs[j].name != n
  {
    if |vs| == 0 then None
    else if vs[0].name == n then Some(0)
    else match FindByName(vs[1..], n)
      case None => None
      case Some(k) => Some(k + 1)
  }
}
