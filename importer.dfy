// Netlist import: one vertex per cell record and, for every net, one
// edge from the driving cell to each other pin of the net.

module Importer {

  import opened Wrappers
  import opened Text
  import opened Netlist

  /** A cell record of the exported netlist. */
  datatype Cell = Cell(
    name: string,
    isPrimitive: bool,
    refName: string,
    origRefName: string,
    bel: map<string, string>,
    cellProps: seq<(string, string)>,
    cellName: Option<string>,
    parent: string)

  /**
   * A net record: its driver pin and the pins it reaches, split into
   * the `LEAF.0` and `LEAF.1` placements and, within each, inputs then
   * outputs. Pins are written `cell/pin`.
   */
  datatype Net = Net(
    name: string,
    parent: string,
    driver: string,
    leaf0In: seq<string>,
    leaf0Out: seq<string>,
    leaf1In: seq<string>,
    leaf1Out: seq<string>)

  datatype Design = Design(cells: seq<Cell>, nets: seq<Net>)

  /** A pin of a net, with whether it is listed under `LEAF.1`. */
  datatype Endpoint = Endpoint(pin: string, leaf1: bool)

  // ---------------------------------------------------------------------
  // Vertices

  /**
   * The reference of a cell: `REF_NAME` for a primitive; for a
   * hierarchical cell `ORIG_REF_NAME`, falling back to `REF_NAME` when it
   * is empty (the legacy import has no fallback).
   */
  function CellRef(c: Cell, legacy: bool): (r: string)
    ensures c.isPrimitive ==> r == c.refName
    ensures !c.isPrimitive && (legacy || c.origRefName != "") ==> r == c.origRefName
    ensures !c.isPrimitive && !legacy && c.origRefName == "" ==> r == c.refName
  {
    if c.isPrimitive then c.refName
    else if legacy || c.origRefName != "" then c.origRefName
    else c.refName
  }

  /** The vertex cell number `i` becomes. */
  function CellVertex(i: nat, c: Cell, legacy: bool): (v: Vertex)
    ensures v.id == i && v.name == c.name && v.parent == c.parent
    ensures v.caption == LastSegment(c.name) && '/' !in v.caption
    ensures v.ref == CellRef(c, legacy)
    ensures v.IsPrimitive() <==> c.isPrimitive
    ensures v.color == Blue <==> v.ref == "IBUF" || v.ref == "OBUF"
    ensures v.color == Orange <==> c.isPrimitive && v.ref != "IBUF" && v.ref != "OBUF"
    ensures v.color == Green <==> !c.isPrimitive && v.ref != "IBUF" && v.ref != "OBUF"
    ensures v.color != Black
  {
    var ref := CellRef(c, legacy);
    var color := if ref == "IBUF" || ref == "OBUF" then Blue
                 else if c.isPrimitive then Orange
                 else Green;
    var kind := if c.isPrimitive then Leaf(c.bel) else Hier(c.cellProps);
    Vertex(i, LastSegment(c.name), c.name, c.parent, color, ref, kind, c.cellName)
  }

  // ---------------------------------------------------------------------
  // Edges, specified net by net

  /** The signal class the driver text gives an edge between two `LEAF.1` pins. */
  function DriverType(driver: string): (s: Signal)
    ensures s == Const1 <==> Contains(driver, "VCC/P")
    ensures s == Const0 <==> !Contains(driver, "VCC/P") && Contains(driver, "GND/G")
    ensures s != Port
  {
    if Contains(driver, "VCC/P") then Const1
    else if Contains(driver, "GND/G") then Const0
    else Primitive
  }

  function Tag(pins: seq<string>, leaf1: bool): (r: seq<Endpoint>)
    ensures |r| == |pins|
    ensures forall k :: 0 <= k < |r| ==> r[k] == Endpoint(pins[k], leaf1)
  {
    seq(|pins|, k requires 0 <= k < |pins| => Endpoint(pins[k], leaf1))
  }

  /** The pins of a net in the order the import visits them. */
  function NetPins(n: Net): seq<Endpoint>
  {
    Tag(n.leaf0In, false) + Tag(n.leaf0Out, false) + Tag(n.leaf1In, true) + Tag(n.leaf1Out, true)
  }

  /**
   * The placement of the last listing of the driver among `eps`
   * (`LEAF.0` when it is not listed).
   */
  function DriverLeaf(eps: seq<Endpoint>, driver: string): bool
  {
    if |eps| == 0 then false
    else if eps[|eps| - 1].pin == driver then eps[|eps| - 1].leaf1
    else DriverLeaf(eps[..|eps| - 1], driver)
  }

  /** The driver counts as `LEAF.1` exactly when it is listed under `LEAF.1`. */
  lemma DriverLeafMeaning(n: Net)
    ensures DriverLeaf(NetPins(n), n.driver) <==> n.driver in n.leaf1In || n.driver in n.leaf1Out
  {
    var a := Tag(n.leaf0In, false) + Tag(n.leaf0Out, false);
    var b := Tag(n.leaf1In, true) + Tag(n.leaf1Out, true);
    assert NetPins(n) == a + b;
    DriverLeafSplit(a, b, n.driver);
    DriverLeafTagged(b, n.driver, true);
    DriverLeafTagged(a, n.driver, false);
    ListedLeaf1(n);
  }

  /** The driver is listed under `LEAF.1` exactly when it is among the tagged `LEAF.1` pins. */
  lemma ListedLeaf1(n: Net)
    ensures Listed(Tag(n.leaf1In, true) + Tag(n.leaf1Out, true), n.driver) <==>
      n.driver in n.leaf1In || n.driver in n.leaf1Out
  {
    var b := Tag(n.leaf1In, true) + Tag(n.leaf1Out, true);
    if n.driver in n.leaf1In {
      var k :| 0 <= k < |n.leaf1In| && n.leaf1In[k] == n.driver;
      assert b[k].pin == n.driver;
    }
    if n.driver in n.leaf1Out {
      var k :| 0 <= k < |n.leaf1Out| && n.leaf1Out[k] == n.driver;
      assert b[|n.leaf1In| + k].pin == n.driver;
    }
    if Listed(b, n.driver) {
      var k :| 0 <= k < |b| && b[k].pin == n.driver;
      if k < |n.leaf1In| {
        assert n.leaf1In[k] == n.driver;
      } else {
        assert n.leaf1Out[k - |n.leaf1In|] == n.driver;
      }
    }
  }

  /** The driver is listed among `b`. */
  predicate Listed(b: seq<Endpoint>, driver: string)
  {
    exists k :: 0 <= k < |b| && b[k].pin == driver
  }

  lemma ListedSnoc(b: seq<Endpoint>, driver: string)
    requires |b| > 0
    ensures Listed(b, driver) <==> b[|b| - 1].pin == driver || Listed(b[..|b| - 1], driver)
  {
    if Listed(b, driver) && b[|b| - 1].pin != driver {
      var k :| 0 <= k < |b| && b[k].pin == driver;
      assert b[..|b| - 1][k].pin == driver;
    }
    if Listed(b[..|b| - 1], driver) {
      var k :| 0 <= k < |b| - 1 && b[..|b| - 1][k].pin == driver;
      assert b[k].pin == driver;
    }
  }

  lemma {:induction false} DriverLeafSplit(a: seq<Endpoint>, b: seq<Endpoint>, driver: string)
    ensures DriverLeaf(a + b, driver) ==
      if Listed(b, driver) then DriverLeaf(b, driver) else DriverLeaf(a, driver)
    decreases |b|
  {
    if |b| > 0 {
      var ab := a + b;
      assert ab[..|ab| - 1] == a + b[..|b| - 1];
      DriverLeafSplit(a, b[..|b| - 1], driver);
      ListedSnoc(b, driver);
    } else {
      assert a + b == a;
    }
  }

  lemma {:induction false} DriverLeafTagged(b: seq<Endpoint>, driver: string, tag: bool)
    requires forall k :: 0 <= k < |b| ==> b[k].leaf1 == tag
    ensures DriverLeaf(b, driver) == (Listed(b, driver) && tag)
    decreases |b|
  {
    if |b| > 0 {
      DriverLeafTagged(b[..|b| - 1], driver, tag);
      ListedSnoc(b, driver);
    }
  }

  /** What one net contributes: its edges, and whether it tore the attribute lists. */
  datatype NetOutcome = NetOutcome(edges: seq<Edge>, torn: bool)

  /** The driver's data once its cell is found at index `d`. */
  datatype DriverInfo = DriverInfo(d: nat, signal: Signal, leaf1: bool, outPin: Option<string>)

  /**
   * What every edge of net `n` shares: it leaves the driver's cell from
   * the driver's pin, is named after the net, and is "port" unless the
   * driver is `LEAF.1`.
   */
  predicate FromDriver(vs: seq<Vertex>, n: Net, di: DriverInfo, e: Edge)
  {
    e.src == di.d && e.dst < |vs| &&
    (e.signal == Port || (e.signal == di.signal && di.leaf1)) &&
    e.name == LastSegment(n.name) && e.parent == n.parent && di.outPin == Some(e.outPin)
  }

  /**
   * The edge pin `ep` gives: its input pin is the text after the pin's
   * last '/', and it carries the driver's signal class exactly when
   * driver and pin are both `LEAF.1`.
   */
  predicate ForPin(di: DriverInfo, ep: Endpoint, e: Edge)
  {
    e.inPin == LastSegment(ep.pin) && e.signal == (if di.leaf1 && ep.leaf1 then di.signal else Port)
  }

  /**
   * What a single pin does to the net's edges. A tear keeps what was
   * appended before the exception: the ends, name and parent, and the
   * input pin when the pin had one.
   */
  datatype Step =
    | Skip
    | Abandon
    | Tear(conn: (nat, nat), name: string, parent: string, inPin: Option<string>)
    | Add(e: Edge)

  /**
   * A pin equal to the driver is skipped. A pin whose cell is unknown
   * abandons the rest of the net. A pin, or a driver, without a '/'
   * raises after part of an edge's attributes were appended: the net
   * tears the lists. Otherwise the pin gives one edge, whose signal is the
   * driver's class when driver and pin are both `LEAF.1` and "port"
   * otherwise.
   */
  function PinStep(vs: seq<Vertex>, n: Net, di: DriverInfo, ep: Endpoint): (r: Step)
    requires di.d < |vs|
    ensures r.Skip? <==> ep.pin == n.driver
    ensures r.Tear? ==> '/' !in ep.pin || di.outPin.None?
    ensures r.Tear? ==>
      r.conn.0 == di.d && r.conn.1 < |vs| && r.name == LastSegment(n.name) &&
      r.parent == n.parent && r.inPin == RSplitLast(ep.pin).tail
    ensures r.Add? ==> r.e.src == di.d && r.e.dst < |vs| && vs[r.e.dst].name == RSplitLast(ep.pin).head
    ensures r.Add? ==> ForPin(di, ep, r.e)
    ensures r.Add? ==> FromDriver(vs, n, di, r.e)
  {
    if ep.pin == n.driver then Skip
    else
      var s := RSplitLast(ep.pin);
      match FindByName(vs, s.head)
      case None => Abandon
      case Some(t) =>
        if s.tail.None? || di.outPin.None? then Tear((di.d, t), LastSegment(n.name), n.parent, s.tail)
        else
          var signal := if di.leaf1 && ep.leaf1 then di.signal else Port;
          Add(Edge(di.d, t, LastSegment(n.name), n.parent, s.tail.value, di.outPin.value, signal))
  }

  /** The edges the pins `eps[k..]` contribute, stopping at the first abandon or tear. */
  function PinEdges(vs: seq<Vertex>, n: Net, di: DriverInfo, eps: seq<Endpoint>, k: nat): (r: NetOutcome)
    requires di.d < |vs|
    ensures forall j :: 0 <= j < |r.edges| ==> FromDriver(vs, n, di, r.edges[j])
    decreases |eps| - k
  {
    if k >= |eps| then NetOutcome([], false)
    else
      match PinStep(vs, n, di, eps[k])
      case Skip => PinEdges(vs, n, di, eps, k + 1)
      case Abandon => NetOutcome([], false)
      case Tear(_, _, _, _) => NetOutcome([], true)
      case Add(e) =>
        var rest := PinEdges(vs, n, di, eps, k + 1);
        NetOutcome([e] + rest.edges, rest.torn)
  }

  /** The driver of net `n`, when its cell is known. */
  function Driver(vs: seq<Vertex>, n: Net): (r: Option<DriverInfo>)
    ensures r.Some? ==> r.value.d < |vs| && r.value.outPin == RSplitLast(n.driver).tail
  {
    var s := RSplitLast(n.driver);
    match FindByName(vs, s.head)
    case None => None
    case Some(d) => Some(DriverInfo(d, DriverType(n.driver), DriverLeaf(NetPins(n), n.driver), s.tail))
  }

  /** The contribution of one net; a net whose driver is unknown gives nothing. */
  function NetEdges(vs: seq<Vertex>, n: Net): (r: NetOutcome)
    ensures forall j :: 0 <= j < |r.edges| ==> r.edges[j].src < |vs| && r.edges[j].dst < |vs|
  {
    match Driver(vs, n)
    case None => NetOutcome([], false)
    case Some(di) => PinEdges(vs, n, di, NetPins(n), 0)
  }

  /** The edges of the nets `ns`, in order, and whether any net tore the lists. */
  function AllEdges(vs: seq<Vertex>, ns: seq<Net>): (r: NetOutcome)
    ensures forall j :: 0 <= j < |r.edges| ==> r.edges[j].src < |vs| && r.edges[j].dst < |vs|
  {
    if |ns| == 0 then NetOutcome([], false)
    else
      var a := AllEdges(vs, ns[..|ns| - 1]);
      var b := NetEdges(vs, ns[|ns| - 1]);
      NetOutcome(a.edges + b.edges, a.torn || b.torn)
  }

  /** The vertices of a design, one per cell, in record order. */
  function Vertices(cells: seq<Cell>, legacy: bool): (vs: seq<Vertex>)
    ensures |vs| == |cells|
    ensures forall i :: 0 <= i < |vs| ==> vs[i] == CellVertex(i, cells[i], legacy)
  {
    seq(|cells|, i requires 0 <= i < |cells| => CellVertex(i, cells[i], legacy))
  }

  /** One more cell adds its vertex at the end. */
  lemma VerticesSnoc(cells: seq<Cell>, i: nat, legacy: bool)
    requires i < |cells|
    ensures Vertices(cells[..i + 1], legacy) == Vertices(cells[..i], legacy) + [CellVertex(i, cells[i], legacy)]
  {
    var a, b := Vertices(cells[..i + 1], legacy), Vertices(cells[..i], legacy) + [CellVertex(i, cells[i], legacy)];
    forall k | 0 <= k < |a| ensures a[k] == b[k] {
      assert cells[..i + 1][k] == cells[k];
      if k < i {
        assert cells[..i][k] == cells[k];
      }
    }
  }

  /**
   * What the import produces from a design: the vertices, and the edges
   * the six attribute lists describe once attached to the graph.
   */
  function Imported(design: Design, legacy: bool): Outcome<Graph>
  {
    var vs := Vertices(design.cells, legacy);
    Attach(vs, AllColumns(vs, design.nets))
  }

  /** Without a torn net, the import is the vertices and every net's edges in order. */
  lemma ImportedIntact(design: Design, legacy: bool)
    requires !AllEdges(Vertices(design.cells, legacy), design.nets).torn
    ensures Imported(design, legacy) ==
      Done(Graph(Vertices(design.cells, legacy), AllEdges(Vertices(design.cells, legacy), design.nets).edges))
  {
    var vs := Vertices(design.cells, legacy);
    AllColumnsAgree(vs, design.nets);
    AttachAligned(vs, AllColumns(vs, design.nets));
  }

  // ---------------------------------------------------------------------
  // Properties of the import

  /** A successful import has ids equal to indices and no dangling edge. */
  lemma ImportedGraphValid(design: Design, legacy: bool)
    requires Imported(design, legacy).Done?
    ensures IdsAreIndices(Imported(design, legacy).value)
    ensures WellFormed(Imported(design, legacy).value)
    ensures |Imported(design, legacy).value.vs| == |design.cells|
  {
  }

  /** A net whose driver cell is unknown contributes nothing. */
  lemma UnknownDriverAbandonsNet(vs: seq<Vertex>, n: Net)
    requires FindByName(vs, RSplitLast(n.driver).head).None?
    ensures NetEdges(vs, n) == NetOutcome([], false)
  {
  }

  /**
   * A pin whose cell is unknown abandons the rest of the net: the net
   * contributes what the pins before it gave, and the import goes on.
   */
  lemma UnknownPinAbandonsRest(vs: seq<Vertex>, n: Net, di: DriverInfo,
                               eps: seq<Endpoint>, j: nat, k: nat)
    requires di.d < |vs|
    requires j <= k < |eps| && eps[k].pin != n.driver
    requires FindByName(vs, RSplitLast(eps[k].pin).head).None?
    ensures PinEdges(vs, n, di, eps, j) == PinEdges(vs, n, di, eps[..k], j)
  {
    UnknownPinAbandons(vs, n, di, eps, k);
    CutAfterStop(vs, n, di, eps, j, k);
  }

  /** Once the pins from `k` on add nothing and tear nothing, the pins before `k` decide the outcome. */
  lemma {:induction false} CutAfterStop(vs: seq<Vertex>, n: Net, di: DriverInfo, eps: seq<Endpoint>, j: nat, k: nat)
    requires di.d < |vs| && j <= k <= |eps|
    requires PinEdges(vs, n, di, eps, k) == NetOutcome([], false)
    ensures PinEdges(vs, n, di, eps, j) == PinEdges(vs, n, di, eps[..k], j)
    decreases k - j
  {
    if j < k {
      assert eps[..k][j] == eps[j];
      CutAfterStop(vs, n, di, eps, j + 1, k);
      PinEdgesAgree(vs, n, di, eps, eps[..k], j);
    }
  }

  /** A pin with an unknown cell ends the net's edges right there. */
  lemma UnknownPinAbandons(vs: seq<Vertex>, n: Net, di: DriverInfo, eps: seq<Endpoint>, k: nat)
    requires di.d < |vs|
    requires k < |eps| && eps[k].pin != n.driver
    requires FindByName(vs, RSplitLast(eps[k].pin).head).None?
    ensures PinEdges(vs, n, di, eps, k) == NetOutcome([], false)
  {
    assert PinStep(vs, n, di, eps[k]).Abandon?;
  }

  /** Two endpoint lists with the same endpoint at `j` and the same outcome after it have the same outcome from `j`. */
  lemma PinEdgesAgree(vs: seq<Vertex>, n: Net, di: DriverInfo, eps: seq<Endpoint>, eps': seq<Endpoint>, j: nat)
    requires di.d < |vs| && j < |eps| && j < |eps'| && eps[j] == eps'[j]
    requires PinEdges(vs, n, di, eps, j + 1) == PinEdges(vs, n, di, eps', j + 1)
    ensures PinEdges(vs, n, di, eps, j) == PinEdges(vs, n, di, eps', j)
  {
  }

  /** Every edge is "port" unless the driver is listed under `LEAF.1`. */
  lemma SignalNeedsLeaf1Driver(vs: seq<Vertex>, n: Net)
    ensures forall e :: e in NetEdges(vs, n).edges && e.signal != Port ==>
      (n.driver in n.leaf1In || n.driver in n.leaf1Out) && e.signal == DriverType(n.driver)
  {
    DriverLeafMeaning(n);
  }

  /** Edges carry the pin names after the last '/' and the net's own name. */
  lemma EdgePinNames(vs: seq<Vertex>, n: Net)
    ensures forall e :: e in NetEdges(vs, n).edges ==>
      e.outPin == LastSegment(n.driver) && e.name == LastSegment(n.name) && e.parent == n.parent
  {
  }

  /** Every pin of `eps[k..]` other than the driver has a '/' and a known cell. */
  predicate Resolves(vs: seq<Vertex>, n: Net, eps: seq<Endpoint>, k: nat)
  {
    forall j :: k <= j < |eps| && eps[j].pin != n.driver ==>
      '/' in eps[j].pin && FindByName(vs, RSplitLast(eps[j].pin).head).Some?
  }

  /**
   * When the driver has a '/' and every other pin resolves, the net does
   * not tear the lists and gives one edge per pin other than the driver.
   */
  lemma {:induction false} FullNetCount(vs: seq<Vertex>, n: Net, di: DriverInfo, eps: seq<Endpoint>, k: nat)
    requires di.d < |vs| && di.outPin.Some? && k <= |eps|
    requires Resolves(vs, n, eps, k)
    ensures !PinEdges(vs, n, di, eps, k).torn
    ensures |PinEdges(vs, n, di, eps, k).edges| == |NonDriver(eps[k..], n.driver)|
    decreases |eps| - k
  {
    if k < |eps| {
      assert eps[k..][0] == eps[k] && eps[k..][1..] == eps[k + 1..];
      FullNetCount(vs, n, di, eps, k + 1);
    }
  }

  /**
   * Under the same conditions, the `j`-th edge comes from the `j`-th pin
   * other than the driver, and carries the driver's signal class exactly
   * when driver and pin are both `LEAF.1`.
   */
  lemma FullNetSignals(vs: seq<Vertex>, n: Net, di: DriverInfo, eps: seq<Endpoint>, k: nat, j: nat)
    requires di.d < |vs| && di.outPin.Some? && k <= |eps|
    requires Resolves(vs, n, eps, k)
    requires j < |NonDriver(eps[k..], n.driver)|
    ensures j < |PinEdges(vs, n, di, eps, k).edges| &&
      ForPin(di, NonDriver(eps[k..], n.driver)[j], PinEdges(vs, n, di, eps, k).edges[j])
  {
    FullNetPaired(vs, n, di, eps, k);
  }

  /** Pins and edges correspond one to one, in order. */
  predicate PinsPaired(di: DriverInfo, pins: seq<Endpoint>, edges: seq<Edge>)
  {
    |pins| == |edges| && forall j :: 0 <= j < |pins| ==> ForPin(di, pins[j], edges[j])
  }

  lemma PinsPairedCons(di: DriverInfo, ep: Endpoint, e: Edge, pins: seq<Endpoint>, edges: seq<Edge>)
    requires ForPin(di, ep, e) && PinsPaired(di, pins, edges)
    ensures PinsPaired(di, [ep] + pins, [e] + edges)
  {
    var ps, es := [ep] + pins, [e] + edges;
    forall j | 0 <= j < |ps| ensures ForPin(di, ps[j], es[j]) {
      if j > 0 {
        assert ps[j] == pins[j - 1];
        assert es[j] == edges[j - 1];
      }
    }
  }

  /** Under the conditions of `FullNetCount`, the pins other than the driver pair off with the net's edges. */
  lemma {:induction false} FullNetPaired(vs: seq<Vertex>, n: Net, di: DriverInfo, eps: seq<Endpoint>, k: nat)
    requires di.d < |vs| && di.outPin.Some? && k <= |eps|
    requires Resolves(vs, n, eps, k)
    ensures PinsPaired(di, NonDriver(eps[k..], n.driver), PinEdges(vs, n, di, eps, k).edges)
    decreases |eps| - k
  {
    if k == |eps| {
      assert eps[k..] == [];
    } else {
      var rest := PinEdges(vs, n, di, eps, k + 1);
      var ndRest := NonDriver(eps[k + 1..], n.driver);
      NonDriverAt(eps, k, n.driver);
      PinEdgesAt(vs, n, di, eps, k);
      FullNetPaired(vs, n, di, eps, k + 1);
      if eps[k].pin == n.driver {
        assert PinEdges(vs, n, di, eps, k) == rest && NonDriver(eps[k..], n.driver) == [] + ndRest == ndRest;
      } else {
        var e := ResolvedPinAdds(vs, n, di, eps[k]);
        PinsPairedCons(di, eps[k], e, ndRest, rest.edges);
      }
    }
  }

  /** The pins other than the driver from `k` on: pin `k` itself, unless it is the driver, then the rest. */
  lemma NonDriverAt(eps: seq<Endpoint>, k: nat, driver: string)
    requires k < |eps|
    ensures NonDriver(eps[k..], driver) ==
      (if eps[k].pin == driver then [] else [eps[k]]) + NonDriver(eps[k + 1..], driver)
  {
    assert eps[k..][0] == eps[k] && eps[k..][1..] == eps[k + 1..];
  }

  /** A pin other than the driver, with a '/' and a known cell, adds an edge when the driver has an output pin. */
  lemma ResolvedPinAdds(vs: seq<Vertex>, n: Net, di: DriverInfo, ep: Endpoint) returns (e: Edge)
    requires di.d < |vs| && di.outPin.Some? && ep.pin != n.driver
    requires '/' in ep.pin && FindByName(vs, RSplitLast(ep.pin).head).Some?
    ensures PinStep(vs, n, di, ep) == Add(e) && ForPin(di, ep, e)
  {
    e := PinStep(vs, n, di, ep).e;
  }


  /** The pins that yield edges: every pin but the driver itself. */
  function NonDriver(eps: seq<Endpoint>, driver: string): (r: seq<Endpoint>)
    ensures |r| <= |eps|
    ensures forall j :: 0 <= j < |r| ==> r[j] in eps && r[j].pin != driver
  {
    if |eps| == 0 then []
    else if eps[0].pin == driver then NonDriver(eps[1..], driver)
    else [eps[0]] + NonDriver(eps[1..], driver)
  }

  // ---------------------------------------------------------------------
  // The import itself

  /**
   * The six attribute lists the import fills; an exception between two
   * appends leaves the later lists shorter.
   */
  datatype Columns = Columns(
    conns: seq<(nat, nat)>,
    names: seq<string>,
    parents: seq<string>,
    inPins: seq<string>,
    outPins: seq<string>,
    signals: seq<Signal>)

  /** The shape every append sequence leaves the lists in. */
  predicate Shaped(c: Columns)
  {
    |c.conns| == |c.names| == |c.parents| && |c.parents| >= |c.inPins| >= |c.outPins| &&
    |c.outPins| == |c.signals|
  }

  predicate Aligned(c: Columns)
  {
    Shaped(c) && |c.outPins| == |c.conns|
  }

  /** The lists without their last entries. */
  function Init(c: Columns): (r: Columns)
    requires Aligned(c) && |c.conns| > 0
    ensures Aligned(r) && |r.conns| == |c.conns| - 1
  {
    var m := |c.conns| - 1;
    Columns(c.conns[..m], c.names[..m], c.parents[..m], c.inPins[..m], c.outPins[..m], c.signals[..m])
  }

  /** The edges aligned lists describe. */
  function Zip(c: Columns): (r: seq<Edge>)
    requires Aligned(c)
    ensures |r| == |c.conns|
    decreases |c.conns|
  {
    if |c.conns| == 0 then []
    else
      var m := |c.conns| - 1;
      Zip(Init(c)) + [Edge(c.conns[m].0, c.conns[m].1, c.names[m], c.parents[m], c.inPins[m], c.outPins[m], c.signals[m])]
  }

  function Push(c: Columns, e: Edge): (r: Columns)
    ensures Shaped(c) ==> Shaped(r)
    ensures Aligned(c) ==> Aligned(r) && Zip(r) == Zip(c) + [e]
  {
    var r := Columns(c.conns + [(e.src, e.dst)], c.names + [e.name], c.parents + [e.parent],
            c.inPins + [e.inPin], c.outPins + [e.outPin], c.signals + [e.signal]);
    assert Aligned(c) ==> Init(r) == c;
    r
  }

  /** Every recorded connection joins two of the `n` vertices. */
  predicate EndsIn(c: Columns, n: nat)
  {
    forall j :: 0 <= j < |c.conns| ==> c.conns[j].0 < n && c.conns[j].1 < n
  }

  /** The lists after one pin's appends, cut short where a tear raises. */
  function Effect(c: Columns, step: Step): (r: Columns)
    ensures Shaped(c) ==> Shaped(r)
  {
    match step
    case Skip => c
    case Abandon => c
    case Tear(conn, name, parent, inPin) =>
      var r := c.(conns := c.conns + [conn], names := c.names + [name], parents := c.parents + [parent]);
      if inPin.Some? then r.(inPins := r.inPins + [inPin.value]) else r
    case Add(e) => Push(c, e)
  }

  /** One pin's appends keep the lists' shape and record only connections between vertices. */
  lemma StepKeeps(vs: seq<Vertex>, n: Net, di: DriverInfo, ep: Endpoint, c: Columns)
    requires di.d < |vs|
    ensures Shaped(c) ==> Shaped(Effect(c, PinStep(vs, n, di, ep)))
    ensures EndsIn(c, |vs|) ==> EndsIn(Effect(c, PinStep(vs, n, di, ep)), |vs|)
  {
    var step := PinStep(vs, n, di, ep);
    var r := Effect(c, step);
    if EndsIn(c, |vs|) && (step.Tear? || step.Add?) {
      var conn := if step.Tear? then step.conn else (step.e.src, step.e.dst);
      assert conn.0 < |vs| && conn.1 < |vs|;
      EndsInSnoc(c, r, conn, |vs|);
    }
  }

  lemma EndsInSnoc(c: Columns, r: Columns, conn: (nat, nat), n: nat)
    requires EndsIn(c, n) && r.conns == c.conns + [conn] && conn.0 < n && conn.1 < n
    ensures EndsIn(r, n)
  {
    forall j | 0 <= j < |r.conns| ensures r.conns[j].0 < n && r.conns[j].1 < n {
      if j < |c.conns| {
        assert r.conns[j] == c.conns[j];
      }
    }
  }

  /** The lists after the pins `eps[k..]` of a net, stopping at the first abandon or tear. */
  function PinColumns(vs: seq<Vertex>, n: Net, di: DriverInfo, eps: seq<Endpoint>, k: nat, c: Columns): (r: Columns)
    requires di.d < |vs|
    ensures Shaped(c) ==> Shaped(r)
    ensures EndsIn(c, |vs|) ==> EndsIn(r, |vs|)
    decreases |eps| - k
  {
    if k >= |eps| then c
    else
      var step := PinStep(vs, n, di, eps[k]);
      StepKeeps(vs, n, di, eps[k], c);
      if step.Abandon? || step.Tear? then Effect(c, step)
      else PinColumns(vs, n, di, eps, k + 1, Effect(c, step))
  }

  /** The lists after net `n`; a net whose driver is unknown appends nothing. */
  function NetColumns(vs: seq<Vertex>, n: Net, c: Columns): (r: Columns)
    ensures Shaped(c) ==> Shaped(r)
    ensures EndsIn(c, |vs|) ==> EndsIn(r, |vs|)
  {
    match Driver(vs, n)
    case None => c
    case Some(di) => PinColumns(vs, n, di, NetPins(n), 0, c)
  }

  /** The lists after the nets `ns`, in order, from empty lists. */
  function AllColumns(vs: seq<Vertex>, ns: seq<Net>): (r: Columns)
    ensures Shaped(r) && EndsIn(r, |vs|)
  {
    if |ns| == 0 then Columns([], [], [], [], [], [])
    else NetColumns(vs, ns[|ns| - 1], AllColumns(vs, ns[..|ns| - 1]))
  }

  /** Entry `j` of a non-empty list that python-igraph repeats over all edges. */
  function Recycled<T>(c: seq<T>, j: nat): (r: T)
    requires |c| > 0
    ensures j < |c| ==> r == c[j]
  {
    c[j % |c|]
  }

  /**
   * `add_edges(conns)`, then each list assigned to its edge attribute.
   * python-igraph repeats a shorter list from its start, and refuses an
   * empty one while there are edges.
   */
  function Attach(vs: seq<Vertex>, c: Columns): (r: Outcome<Graph>)
    requires Shaped(c)
    ensures r.Raises? <==> |c.conns| > 0 && |c.outPins| == 0
    ensures r.Done? ==> r.value.vs == vs && |r.value.es| == |c.conns|
    ensures r.Done? ==> forall j :: 0 <= j < |c.conns| ==>
      (r.value.es[j].src, r.value.es[j].dst) == c.conns[j] &&
      r.value.es[j].name == c.names[j] && r.value.es[j].parent == c.parents[j] &&
      r.value.es[j].inPin == c.inPins[j % |c.inPins|] &&
      r.value.es[j].outPin == c.outPins[j % |c.outPins|] &&
      r.value.es[j].signal == c.signals[j % |c.signals|]
  {
    if |c.conns| > 0 && (|c.inPins| == 0 || |c.outPins| == 0 || |c.signals| == 0) then
      Raises("attribute list must not be empty")
    else
      Done(Graph(vs, seq(|c.conns|, j requires 0 <= j < |c.conns| =>
        Edge(c.conns[j].0, c.conns[j].1, c.names[j], c.parents[j],
             Recycled(c.inPins, j), Recycled(c.outPins, j), Recycled(c.signals, j)))))
  }

  /** Entry `j` of aligned lists is edge `j` of `Zip`. */
  lemma {:induction false} ZipAt(c: Columns, j: nat)
    requires Aligned(c) && j < |c.conns|
    ensures Zip(c)[j] == Edge(c.conns[j].0, c.conns[j].1, c.names[j], c.parents[j], c.inPins[j], c.outPins[j], c.signals[j])
    decreases |c.conns|
  {
    if j < |c.conns| - 1 {
      ZipAt(Init(c), j);
    }
  }

  /** On aligned lists nothing is repeated: attaching them gives the zipped edges. */
  lemma AttachAligned(vs: seq<Vertex>, c: Columns)
    requires Aligned(c)
    ensures Attach(vs, c) == Done(Graph(vs, Zip(c)))
  {
    var es := Attach(vs, c).value.es;
    forall j | 0 <= j < |c.conns| ensures es[j] == Zip(c)[j] {
      AttachAt(vs, c, j);
    }
    assert es == Zip(c);
  }

  lemma AttachAt(vs: seq<Vertex>, c: Columns, j: nat)
    requires Aligned(c) && j < |c.conns|
    ensures Attach(vs, c).Done? && Attach(vs, c).value.es[j] == Zip(c)[j]
  {
    ZipAt(c, j);
  }

  /** The lists after a net's pins, while aligned, are the lists before plus the pins' edges. */
  lemma {:induction false} PinColumnsAgree(vs: seq<Vertex>, n: Net, di: DriverInfo, eps: seq<Endpoint>, k: nat, c: Columns)
    requires di.d < |vs| && Shaped(c)
    ensures Aligned(PinColumns(vs, n, di, eps, k, c)) <==> Aligned(c) && !PinEdges(vs, n, di, eps, k).torn
    ensures Aligned(PinColumns(vs, n, di, eps, k, c)) ==>
      Zip(PinColumns(vs, n, di, eps, k, c)) == Zip(c) + PinEdges(vs, n, di, eps, k).edges
    decreases |eps| - k
  {
    if k >= |eps| {
      if Aligned(c) { assert Zip(c) + [] == Zip(c); }
    } else {
      var step := PinStep(vs, n, di, eps[k]);
      match step
      case Skip =>
        PinColumnsAgree(vs, n, di, eps, k + 1, c);
      case Abandon =>
        if Aligned(c) { assert Zip(c) + [] == Zip(c); }
      case Tear(_, _, _, _) =>
      case Add(e) =>
        PinColumnsAgree(vs, n, di, eps, k + 1, Push(c, e));
        AdvanceAdd(c, e, PinEdges(vs, n, di, eps, k + 1).edges);
    }
  }

  /** `NetColumns` while aligned appends exactly `NetEdges`. */
  lemma NetColumnsAgree(vs: seq<Vertex>, n: Net, c: Columns)
    requires Shaped(c)
    ensures Aligned(NetColumns(vs, n, c)) <==> Aligned(c) && !NetEdges(vs, n).torn
    ensures Aligned(NetColumns(vs, n, c)) ==> Zip(NetColumns(vs, n, c)) == Zip(c) + NetEdges(vs, n).edges
  {
    match Driver(vs, n)
    case None =>
      if Aligned(c) { assert Zip(c) + [] == Zip(c); }
    case Some(di) =>
      PinColumnsAgree(vs, n, di, NetPins(n), 0, c);
  }

  /** The lists stay aligned exactly while no net tears them, and then describe `AllEdges`. */
  lemma {:induction false} AllColumnsAgree(vs: seq<Vertex>, ns: seq<Net>)
    ensures Aligned(AllColumns(vs, ns)) <==> !AllEdges(vs, ns).torn
    ensures Aligned(AllColumns(vs, ns)) ==> Zip(AllColumns(vs, ns)) == AllEdges(vs, ns).edges
  {
    if |ns| > 0 {
      var init := ns[..|ns| - 1];
      AllColumnsAgree(vs, init);
      NetColumnsAgree(vs, ns[|ns| - 1], AllColumns(vs, init));
    }
  }

  /**
   * The import: vertices first, then every net's edges appended to the
   * six lists, then the lists attached to the graph.
   */
  method ImportDesign(design: Design, legacy: bool) returns (r: Outcome<Graph>)
    ensures r == Imported(design, legacy)
    ensures r.Raises? ==> AllEdges(Vertices(design.cells, legacy), design.nets).torn
  {
    var vs := BuildVertices(design.cells, legacy);
    var cols := Columns([], [], [], [], [], []);
    var x := 0;
    while x < |design.nets|
      invariant 0 <= x <= |design.nets|
      invariant Shaped(cols) && cols == AllColumns(vs, design.nets[..x])
    {
      var n := design.nets[x];
      assert design.nets[..x + 1][..x] == design.nets[..x];
      cols := AppendNet(vs, n, cols);
      x := x + 1;
    }
    assert design.nets[..x] == design.nets;
    AllColumnsAgree(vs, design.nets);
    return Attach(vs, cols);
  }

  /** The import's loop over cell records. */
  method BuildVertices(cells: seq<Cell>, legacy: bool) returns (vs: seq<Vertex>)
    ensures vs == Vertices(cells, legacy)
  {
    vs := [];
    var i := 0;
    while i < |cells|
      invariant 0 <= i <= |cells|
      invariant vs == Vertices(cells[..i], legacy)
    {
      VerticesSnoc(cells, i, legacy);
      vs := vs + [CellVertex(i, cells[i], legacy)];
      i := i + 1;
    }
    assert cells[..i] == cells;
  }

  /** The body of the import's loop over nets, for net `n`. */
  method AppendNet(vs: seq<Vertex>, n: Net, cols: Columns) returns (out: Columns)
    requires Shaped(cols)
    ensures Shaped(out) && out == NetColumns(vs, n, cols)
    ensures Aligned(out) <==> Aligned(cols) && !NetEdges(vs, n).torn
    ensures Aligned(out) ==> Zip(out) == Zip(cols) + NetEdges(vs, n).edges
  {
    NetColumnsAgree(vs, n, cols);
    out := cols;
    var split := RSplitLast(n.driver);
    var found := FindByName(vs, split.head);
    if found.None? {
      return;
    }
    var eps := NetPins(n);
    var leaf1 := FindDriverLeaf(eps, n.driver);
    var di := DriverInfo(found.value, DriverType(n.driver), leaf1, split.tail);
    assert Driver(vs, n) == Some(di);
    out := AppendPins(vs, n, di, eps, cols);
  }

  /** The loop that finds the driver's placement: the last listing wins. */
  method FindDriverLeaf(eps: seq<Endpoint>, driver: string) returns (leaf1: bool)
    ensures leaf1 == DriverLeaf(eps, driver)
  {
    leaf1 := false;
    var k := 0;
    while k < |eps|
      invariant 0 <= k <= |eps|
      invariant leaf1 == DriverLeaf(eps[..k], driver)
    {
      assert eps[..k + 1][..k] == eps[..k];
      if eps[k].pin == driver {
        leaf1 := eps[k].leaf1;
      }
      k := k + 1;
    }
    assert eps[..k] == eps;
  }

  /** The loop over a net's pins, inside the net's `try`. */
  method AppendPins(vs: seq<Vertex>, n: Net, di: DriverInfo, eps: seq<Endpoint>, cols: Columns)
    returns (out: Columns)
    requires di.d < |vs| && Shaped(cols)
    ensures Shaped(out) && out == PinColumns(vs, n, di, eps, 0, cols)
    ensures Aligned(out) <==> Aligned(cols) && !PinEdges(vs, n, di, eps, 0).torn
    ensures Aligned(out) ==> Zip(out) == Zip(cols) + PinEdges(vs, n, di, eps, 0).edges
  {
    PinColumnsAgree(vs, n, di, eps, 0, cols);
    out := cols;
    var k := 0;
    while k < |eps|
      invariant 0 <= k <= |eps|
      invariant Shaped(out) && PinColumns(vs, n, di, eps, k, out) == PinColumns(vs, n, di, eps, 0, cols)
    {
      var stop;
      out, stop := AppendPin(vs, n, di, eps[k], out);
      if stop {
        return;
      }
      k := k + 1;
    }
  }

  /** How `PinEdges` at a pin follows from the pin's step and the pins after it. */
  predicate Unfolds(step: Step, here: NetOutcome, rest: NetOutcome)
  {
    (step.Skip? ==> here == rest) &&
    (step.Abandon? ==> here == NetOutcome([], false)) &&
    (step.Tear? ==> here == NetOutcome([], true)) &&
    (step.Add? ==> here == NetOutcome([step.e] + rest.edges, rest.torn))
  }

  lemma PinEdgesAt(vs: seq<Vertex>, n: Net, di: DriverInfo, eps: seq<Endpoint>, k: nat)
    requires di.d < |vs| && k < |eps|
    ensures Unfolds(PinStep(vs, n, di, eps[k]), PinEdges(vs, n, di, eps, k), PinEdges(vs, n, di, eps, k + 1))
  {
  }

  /** An appended edge lands at the end of the zipped lists, ahead of the edges of the later pins. */
  lemma AdvanceAdd(cur: Columns, e: Edge, later: seq<Edge>)
    requires Shaped(cur)
    ensures Aligned(Push(cur, e)) <==> Aligned(cur)
    ensures Aligned(cur) ==> Zip(Push(cur, e)) + later == Zip(cur) + ([e] + later)
  {
    if Aligned(cur) {
      assert (Zip(cur) + [e]) + later == Zip(cur) + ([e] + later);
    }
  }

  /**
   * One pin: the six appends in the order the import makes them, cut
   * short where a lookup fails or a split has no second part.
   */
  method AppendPin(vs: seq<Vertex>, n: Net, di: DriverInfo, ep: Endpoint, cols: Columns)
    returns (out: Columns, stop: bool)
    requires di.d < |vs| && Shaped(cols)
    ensures out == Effect(cols, PinStep(vs, n, di, ep))
    ensures stop <==> PinStep(vs, n, di, ep).Abandon? || PinStep(vs, n, di, ep).Tear?
  {
    out, stop := cols, false;
    if ep.pin == n.driver {
      return;
    }
    var s := RSplitLast(ep.pin);
    var t := FindByName(vs, s.head);
    if t.None? {
      stop := true;
      return;
    }
    out := out.(conns := out.conns + [(di.d, t.value)], names := out.names + [LastSegment(n.name)],
                parents := out.parents + [n.parent]);
    if s.tail.None? {
      stop := true;
      return;
    }
    out := out.(inPins := out.inPins + [s.tail.value]);
    if di.outPin.None? {
      stop := true;
      return;
    }
    var signal := if di.leaf1 && ep.leaf1 then di.signal else Port;
    out := out.(outPins := out.outPins + [di.outPin.value], signals := out.signals + [signal]);
  }
}
