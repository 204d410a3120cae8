# iprec netlist template matching, modelled in Dafny

iprec finds instances of known IP cores in FPGA netlists. A netlist is
imported into an attributed directed multigraph:
- each cell becomes a vertex carrying its reference, its hierarchy parent, a colour and its BEL properties;
- each net becomes one edge per driven pin, labelled with the output pin, the input pin and the net's signal type.

Every hierarchical cell of a library design becomes a template. Templates
are kept per reference and deduplicated version by version. A design is
searched by mapping design vertices to template vertices with
`compare_vertex`, a recursive matcher that pairs edges by their
`in_pin.out_pin.signal` key. The design graph itself is never rewritten:
the search grows the template it is matching. An ascend embeds the matched
template in place of one hierarchical cell of a template that contains it,
so the match continues one level up; a descend opens a hierarchical cell
of the template into that cell's own template.

This project models the core of that program:
- the Python string operations the code relies on (`text.dfy`);
- the graph and its incident-edge order (`netlist.dfy`);
- the LUT equation comparison (`equation.dfy`);
- `compare_ref`, the edge dictionaries and `compare_vertex` (`matcher.dfy`);
- `import_design` (`importer.dfy`);
- module subgraphs, user properties and template equality (`library.dfy`);
- the connected-component split of a hierarchical cell (`spans.dfy`);
- the template library builder (`templates.dfy`);
- the replacement steps (`replace.dfy`);
- the descend/ascend search engine (`search.dfy`);
- the hierarchy tree of `print_json_map` (`hierarchy.dfy`);
- the `create_data` design-space odometer (`odometer.dfy`).

The `src/` versions of the files are the main model. Where the older
top-level files behave differently, the difference is kept as a `legacy`
flag or as a separate definition, and lemmas relate the two.

Pure code is modelled as functions and lemmas. Loops are modelled as methods
proved against recursive specification functions. The template library
and the search engine are classes whose methods update their fields. The
odometer is also a class.

## Model

| member | source | states |
|---|---|---|
| Equation.StripFrame | src/compare_v.py:209-214 | an equation without the `(A6+~A6)*(` frame is left as it is |
| Equation.PinOffsets | src/compare_v.py:223-225 | one offset list per pin, A6 down to A1, each the `re.finditer` starts of that pin |
| Equation.PinsNoSelfOverlap | src/compare_v.py:223-225 | no pin name A6..A1 can overlap itself |
| Equation.PinOffsetsExact | src/compare_v.py:223-225 | an offset is in pin `k`'s list exactly when the pin occurs there |
| Equation.PairIsSubMultiset | src/compare_v.py:226-233 | the first-fit pairing (each eq1 pin takes the first unused eq2 pin with an equal list, popping it) succeeds exactly when eq1's offset lists form a sub-multiset of eq2's |
| Equation.CompareEqnMeaning | src/compare_v.py:199-233 | `compare_eqn` holds exactly when the pin-blanked shapes are equal and the pins' offset lists of one equation are a rearrangement of the other's |
| Equation.CompareEqnReflexive | src/compare_v.py:199-233 | every equation matches itself |
| Equation.CompareEqnSymmetric | src/compare_v.py:199-233 | the comparison does not depend on the order of its arguments |
| Equation.CompareEqnNeedsShape | src/compare_v.py:215-221 | equations whose shapes differ after replacing A6..A1 by `PIN` never match |
| Equation.PairWithFlag | create_lib.py:181-193 | the legacy `found`-flag pairing loop returns exactly the first-fit pairing's verdict |
| Equation.CompareEqnLegacy | create_lib.py:160-197 | the legacy `compare_eqn` returns 1 or 0, and 1 exactly when the src comparison holds |
| Matcher.CompareRef | src/compare_v.py:236-252 | different refs never match; a non-primitive with the same ref always matches |
| Matcher.CompareRefMeaning | src/compare_v.py:244-252 | for primitives, the comparison holds exactly when every BEL property both carry is textually equal (the equation test at line 248 adds nothing, because line 250 is not an `elif`) |
| Matcher.CompareRefReflexive | src/compare_v.py:236-252 | every vertex matches itself |
| Matcher.AddTo | src/compare_v.py:264-267 | `setdefault(key, {"e2": [], "e1": []})[side].append(x)`: only the list under `key` on the chosen side grows, by `x` at its end, and keys stay distinct |
| Matcher.EndsComplete | src/compare_v.py:262-267 | every non-port edge files its far end under its own `in_pin.out_pin.signal` key |
| Matcher.EndsOfPortsOnly | src/compare_v.py:262-267 | port edges, and the `zip_longest` padding, file nothing |
| Matcher.GetEdgeDict | src/compare_v.py:259-280 | `get_edge_dict_in`/`get_edge_dict_out`: under each key, the template side lists the far ends of the template vertex's non-port edges with that key, in edge order, and the design side those of the design vertex; keys are distinct |
| Matcher.Walk | src/compare_v.py:261-267 | the `zip_longest` walk runs as long as the longer edge list and files, under each key, exactly the far ends met so far on each side, in order |
| Matcher.NotStuck | src/compare_v.py:295-350 | a mapping that extends `m` and matches both sides of the vertex shows that no edge was stuck under `m`: a success never starts from a stuck mapping |
| Matcher.UnmappedShrinks | src/compare_v.py:305-307 | adding a fresh design vertex to the mapping shrinks the set of unmapped design vertices, which bounds the recursion |
| Matcher.RemoveFirst | src/compare_v.py:312 | `list.remove(x)` takes out one occurrence of `x` and nothing else |
| Matcher.TryCandidate | src/compare_v.py:302-313 | a tentative pair `c -> x` (with `c` unmapped and `x` not yet a value) and the recursive comparison: success keeps `c -> x`, extends the mapping, adds only ref-compatible pairs and keeps it injective |
| Matcher.MatchTarget | src/compare_v.py:296-350 | one template neighbour `x` against its design candidates: an empty list fails; a single candidate already mapped succeeds exactly when it maps to `x`, and a single free one fails when `x` is taken; a success picks a candidate mapped to `x` with no earlier candidate already mapped to `x`, and drops it from the list unless it was a free pick among several in-edge candidates; a failure leaves no candidate mapped to `x` |
| Matcher.MatchGroups | src/compare_v.py:295-350 | the walk over one dictionary: on success every template neighbour in every group is hit by a design candidate, the mapping only grows, new pairs agree on `compare_ref`, injectivity is kept; with no template neighbours the mapping comes back unchanged |
| Matcher.CompareVertex | src/compare_v.py:283-414 | fails when the references differ; a constant vertex succeeds with the mapping unchanged; a success extends the mapping injectively with agreeing pairs and matches every non-port edge on both sides; a vertex with only port edges keeps the mapping; a non-constant vertex with an edge whose design candidates are all absent or mapped elsewhere (`Stuck`) fails |
| Netlist.SignalNameInjective | src/create_lib.py:108-129 | the four signal classes (`CONST1`, `CONST0`, `primitive`, `port`) have pairwise distinct texts, so an edge signature key tells them apart |
| Netlist.EdgesBetween | src/compare_v.py:261 | lists, in ascending order, exactly edges that run from `s` to `t` |
| Netlist.InEdges | src/compare_v.py:261 | `v.in_edges()`: every listed edge enters `v` from a vertex of the graph |
| Netlist.OutEdges | src/compare_v.py:273 | `v.out_edges()`: every listed edge leaves `v` towards a vertex of the graph |
| Netlist.InEdgesComplete | src/compare_v.py:261 | in a well-formed graph, every edge into `v` is listed by `in_edges()` |
| Netlist.OutEdgesComplete | src/compare_v.py:273 | in a well-formed graph, every edge out of `v` is listed by `out_edges()` |
| Netlist.FindByName | src/create_lib.py:107 | `g.vs.find(name=n)` gives the first vertex with that name, or nothing |
| Importer.CellRef | src/create_lib.py:72-83 | a primitive's reference is `REF_NAME`; a hierarchical cell's is `ORIG_REF_NAME`, or `REF_NAME` when that is empty; with the legacy flag (the top-level create_lib.py:54-57) it is `ORIG_REF_NAME` with no fallback |
| Importer.CellVertex | src/create_lib.py:67-90 | cell `i` becomes vertex `i` with its name, parent, label after the last '/', and colour blue for `IBUF`/`OBUF`, else orange for a primitive and green otherwise |
| Importer.Vertices | src/create_lib.py:65-90 | one vertex per cell record, in record order, vertex `i` built from record `i` |
| Importer.BuildVertices | src/create_lib.py:67-90 | the loop over cell records yields exactly `Vertices` |
| Importer.DriverType | src/create_lib.py:108-113 | the driver's class is `CONST1` when its text contains `VCC/P`, else `CONST0` when it contains `GND/G`, else `primitive`; never `port` |
| Importer.DriverLeafMeaning | src/create_lib.py:114-119 | the driver counts as `LEAF.1` exactly when it is listed under `LEAF.1` |
| Importer.FindDriverLeaf | src/create_lib.py:114-119 | the loop over the listings yields the placement of the driver's last listing |
| Importer.Driver | src/create_lib.py:104-107 | a known driver's cell index lies in the graph and its out-pin is the text after the last '/' |
| Importer.PinStep | src/create_lib.py:122-135 | a pin equal to the driver is skipped; a tear happens only for a pin or driver without '/', and records the connection, net name and parent, plus the input pin when the pin has a '/'; an added edge runs from the driver's cell to the pin's cell and carries the driver's class exactly when both are `LEAF.1` |
| Importer.PinEdges | src/create_lib.py:120-137 | every edge the pins give leaves the driver's cell from the driver's pin and carries the net's name and parent |
| Importer.NetEdges | src/create_lib.py:102-137 | every edge a net gives joins two vertices of the graph |
| Importer.AllEdges | src/create_lib.py:102-137 | every edge of every net joins two vertices of the graph |
| Importer.NonDriver | src/create_lib.py:123 | the pins that give edges are pins of the net other than the driver |
| Importer.Push | src/create_lib.py:130-135 | the six appends of one edge keep aligned lists aligned and add that edge to the edges they describe |
| Importer.Effect | src/create_lib.py:130-135 | the appends of one pin, including the partial ones before an `IndexError`, keep the lists' shape: `conns`, `names` and `parent` equal in length and at least as long as `in_pin`, which is at least as long as `out_pin` and `signal` |
| Importer.StepKeeps | src/create_lib.py:124-135 | one pin's appends keep the lists' shape and record only connections between vertices of the graph |
| Importer.PinColumns | src/create_lib.py:120-137 | the lists after a net's pins, cut at the first failed lookup or missing '/', keep their shape and record only connections between vertices |
| Importer.NetColumns | src/create_lib.py:102-137 | one net's `try` body, whether it completes or stops at an exception, keeps the lists' shape and connections between vertices |
| Importer.AllColumns | src/create_lib.py:93-137 | the lists after all nets, from empty lists, have that shape and record only connections between vertices |
| Importer.PinColumnsAgree | src/create_lib.py:120-137 | the lists after a net's pins are aligned exactly when they were before and the net does not tear them, and then they describe the earlier edges followed by the net's edges |
| Importer.NetColumnsAgree | src/create_lib.py:102-137 | the same for a whole net, including a net with an unknown driver |
| Importer.AllColumnsAgree | src/create_lib.py:93-137 | the lists after all nets are aligned exactly when no net tears them, and then they describe `AllEdges` |
| Importer.Attach | src/create_lib.py:138-143 | attaching the lists raises exactly when there are connections but the `out_pin` list is empty; otherwise edge `j` takes connection, name and parent `j`, and entry `j` modulo the length of each shorter list, as python-igraph repeats a short list |
| Importer.AttachAligned | src/create_lib.py:138-143 | attaching aligned lists repeats nothing: the edges are the zipped lists |
| Importer.ImportedIntact | src/create_lib.py:61-144 | with no torn net, the import is the vertices and every net's edges in order |
| Importer.UnknownPinAbandons | src/create_lib.py:124-125 | a pin other than the driver whose cell is not found ends the net's edges at that pin, without tearing |
| Importer.CutAfterStop | src/create_lib.py:120-137 | once the pins from some point on add and tear nothing, dropping them changes nothing |
| Importer.UnknownDriverAbandonsNet | src/create_lib.py:104-137 | a net whose driver cell is not found gives no edge and leaves the lists intact |
| Importer.UnknownPinAbandonsRest | src/create_lib.py:122-137 | a pin whose cell is not found ends the net: the net gives exactly what the pins before it gave |
| Importer.SignalNeedsLeaf1Driver | src/create_lib.py:114-129 | an edge that is not "port" has a driver listed under `LEAF.1`, and its class is the driver's class |
| Importer.EdgePinNames | src/create_lib.py:124-134 | every edge carries the driver's pin after the last '/', the net name after the last '/', and the net's parent |
| Importer.FullNetCount | src/create_lib.py:120-135 | when the driver and every pin resolve, the net does not tear the lists and gives one edge per pin other than the driver |
| Importer.FullNetSignals | src/create_lib.py:120-135 | under the same conditions, the `j`-th edge comes from the `j`-th non-driver pin, with the driver's class exactly when both are `LEAF.1` |
| Importer.ImportedGraphValid | src/create_lib.py:61-144 | a successful import has one vertex per cell, ids equal to indices and no dangling edge |
| Importer.AppendPin | src/create_lib.py:122-135 | one pin's appends, cut short where a lookup fails or a split lacks a second part, are `Effect` of `PinStep`, and the loop stops exactly on an abandon or a tear |
| Importer.AppendPins | src/create_lib.py:120-135 | the loop over a net's pins leaves exactly `PinColumns`; so it appends that net's edges, and leaves the lists aligned exactly when the net does not tear them |
| Importer.AppendNet | src/create_lib.py:102-137 | one net's `try` body leaves exactly `NetColumns`: it appends `NetEdges` and keeps the lists aligned unless the net tears them |
| Importer.ImportDesign | src/create_lib.py:61-144 | the import yields exactly `Imported`: the vertices, then the lists of all nets attached with python-igraph's repetition of short lists; it raises only when some net tore the lists |
| Library.Children | src/create_lib.py:162 | `vs.select(parent=parent)` lists only vertices whose parent is the cell |
| Library.ChildrenAscending | src/create_lib.py:162 | the children come in ascending vertex order |
| Library.ChildrenComplete | src/create_lib.py:162 | every vertex whose parent is the cell is listed |
| Library.VDictKeys | src/create_lib.py:157-164 | `v_dict` maps exactly the cell and its children, into indices of the subgraph, the cell to 0 |
| Library.VDictChild | src/create_lib.py:163-168 | a child lands at its position in the child list plus one |
| Library.RootCopy | src/create_lib.py:156-159 | the cell's own vertex keeps its attributes and gets the last segment of its name |
| Library.ChildCopy | src/create_lib.py:165-167 | a child keeps its attributes and gets the last segments of its name and its parent |
| Library.SubVertices | src/create_lib.py:156-168 | the subgraph has one vertex more than the cell has children, the cell's first |
| Library.SubVerticesChildren | src/create_lib.py:162-168 | subgraph vertex `i` is the copy of the `i`-th child |
| Library.SubgraphIds | src/create_lib.py:179-180 | the subgraph's ids are its indices and it holds the cell and all its children |
| Library.SubgraphWellFormed | src/create_lib.py:170-177 | every copied edge joins vertices of the subgraph |
| Library.SubgraphNames | src/create_lib.py:159-167 | names in the subgraph are local: the cell's last segment, children without '/', each with the cell's local name as parent |
| Library.SubEdgesInRange | src/create_lib.py:176 | re-pointed edges land inside the subgraph |
| Library.SubgraphHasAllChildren | src/create_lib.py:162-168 | every vertex whose parent is the cell has its copy in the subgraph |
| Library.SubEdgesComplete | src/create_lib.py:170-177 | every edge of the cell whose ends both lie in the subgraph is copied |
| Library.SubEdgesSound | src/create_lib.py:170-177 | every copied edge comes from an edge of the cell with both ends in the subgraph |
| Library.SubgraphVertices | src/create_lib.py:157-168 | the vertex loop yields `v_list` = the cell then its children, and the matching vertices and `v_dict` |
| Library.ChildStep | src/create_lib.py:162-168 | one more child extends all three loop results consistently |
| Library.SubgraphEdges | src/create_lib.py:170-177 | the edge loop, with the parent cut on the edge just added, yields exactly the copied edges |
| Library.GetModuleSubgraph | src/create_lib.py:147-182 | the subgraph of the named cell, `None` when no vertex has that name (corrected edge loop) |
| Library.EdgesAsWrittenMeaning | src/create_lib.py:170-177 | as written, the edge loop raises exactly when a copied edge follows a skipped one, and otherwise yields the intended edges |
| Library.RaisesPersist | src/create_lib.py:170-177 | once the loop has raised, longer prefixes raise too |
| Library.SubgraphEdgesAsWritten | src/create_lib.py:170-177 | the edge loop as written raises where `EdgesAsWritten` raises and otherwise yields its edges |
| Library.GetModuleSubgraphAsWritten | src/create_lib.py:147-182 | `get_module_subgraph` as written: `None` for an unknown cell, an index error exactly when a copied edge follows a skipped one |
| Library.SkippedEdgeBreaksSubgraph | create_lib.py:145-154 | a cell with one skipped then one copied edge makes the loop raise, though the intended subgraph has that edge |
| Library.UserProps | src/create_lib.py:188-191 | every user property maps to a one-element list |
| Library.UserPropsMeaning | src/create_lib.py:185-192 | a key is present exactly when some cell property upper-cases to it, and holds the value of the last such property |
| Library.PropMatches | src/create_lib.py:212-220 | `CONFIG.LATCH_OR_FF` is never compared; any other non-equation property matches exactly when the texts are equal |
| Library.EqnIsTextual | src/create_lib.py:214-220 | in the current comparison an equation matches exactly when its text is equal, because a passing `compare_eqn` falls through to the text test |
| Library.PropMatchesStricter | create_lib.py:233-246 | a property the current comparison accepts, the legacy comparison accepts too |
| Library.SignatureCount | src/create_lib.py:228-234 | counts at most the edges there are |
| Library.SignatureCountMeaning | src/create_lib.py:228-235 | a count of 0 means no edge has the signature; a count of 1 means exactly one does |
| Library.MatchedEdgesOccurOnce | src/create_lib.py:223-235 | when two cells match, every edge of the new cell occurs exactly once in the template |
| Library.TemplatesMatchReflexive | src/create_lib.py:195-235 | a cell matches itself exactly when no two of its edges share ends and pins |
| Library.SelfCountOne | src/create_lib.py:228-234 | in a graph with distinct signatures every edge finds exactly itself |
| Library.TemplatesMatchStricter | create_lib.py:215-271 | a cell the current comparison accepts, the legacy comparison accepts too |
| Library.Widen | src/create_lib.py:284-289 | no key is added; lists only grow, at their end, by at most one; a shared key then lists the new value; other keys are kept; lists without duplicates stay so |
| Library.WidenIdempotent | src/create_lib.py:284-289 | widening twice with the same cell changes nothing the second time |
| Spans.SpanMask | src/create_lib.py:250-253 | a vertex survives exactly when it is not the cell itself, not VCC/GND and, for primitive spans, primitive |
| Spans.ReachMask | create_lib.py:299-300 | a vertex survives exactly when it is not green and not VCC/GND |
| Spans.LinkedSymmetric | src/create_lib.py:259 | `mode="all"` ignores edge direction: a surviving link joins both ways |
| Spans.ComponentIsReachability | src/create_lib.py:259 | a component holds exactly the vertices reachable from its first vertex |
| Spans.ComponentsDisjoint | src/create_lib.py:256-263 | two components whose first vertices are not shared have no vertex in common |
| Spans.CountTrue | src/create_lib.py:254 | the visited count never exceeds the number of vertices |
| Spans.SearchStep | src/create_lib.py:259 | listing a fresh surviving neighbour keeps the search state and keeps every earlier mark |
| Spans.Component | src/create_lib.py:259 | `subcomponent(v, mode="all")` lists, once each, exactly the vertices of `v`'s weak component, `v` first |
| Spans.NewComponentApart | src/create_lib.py:256-263 | a component started at an unvisited vertex shares no vertex with the earlier ones and starts at its least vertex |
| Spans.AddComponent | src/create_lib.py:256-265 | starting a component at an unvisited vertex keeps the outer loop's invariant |
| Spans.SkipVertex | src/create_lib.py:256-257 | a deleted or already visited vertex leaves the invariant in place |
| Spans.Ids | src/create_lib.py:260-262 | one id per listed vertex |
| Spans.IdLists | src/create_lib.py:265 | one id list per component |
| Spans.SpanningComponents | src/create_lib.py:254-265 | the components partition the surviving vertices, each starts at its least vertex, in that order, and `lists` are their id lists |
| Spans.InsertBySize | src/create_lib.py:267 | inserting keeps every element and adds `x` once |
| Spans.InsertDescending | src/create_lib.py:267 | inserting into a size-descending list keeps it size-descending |
| Spans.InsertOfSize | src/create_lib.py:267 | inserting puts `x` after every earlier list of its length |
| Spans.SortBySizeDescending | src/create_lib.py:267 | `sort(key=len, reverse=True)` orders by decreasing length |
| Spans.SortBySizePermutes | src/create_lib.py:267 | the sort is a permutation of its input |
| Spans.SortBySizeStable | src/create_lib.py:267 | lists of equal length keep their relative order |
| Spans.GetSpanningTrees | src/create_lib.py:245-268 | the result is the id lists of the components of the surviving vertices, largest first |
| Spans.FirstKept | create_lib.py:301-302 | the first surviving vertex, when there is one |
| Spans.IsReachable | create_lib.py:298-309 | raises exactly when no vertex survives; otherwise true exactly when every surviving vertex is reachable from the first |
| Templates.CountColor | src/create_lib.py:276 | the primitive count is at most the number of vertices |
| Templates.CountColorMeaning | src/create_lib.py:276 | the count is zero exactly when no vertex is orange, and full exactly when all are |
| Templates.CreateHierCell | src/create_lib.py:271-281 | the new version carries both span lists, the number of orange vertices and the user-property map it is given; `create_templates` passes the properties of the whole design, not of the cell |
| Templates.FirstMatch | src/create_lib.py:306-311 | the first stored version that accepts the cell, or none when no version does |
| Templates.GrowsTrans | src/create_lib.py:284-289 | successive widenings compose into one |
| Templates.KeepsTrans | src/create_lib.py:292-317 | a library kept by two passes is kept across both |
| Templates.KeepsReflexive | src/create_lib.py:292-317 | a pass that files nothing keeps the library |
| Templates.GrowsReflexive | src/create_lib.py:284-289 | a version grows into itself |
| Templates.KeepsNew | src/create_lib.py:299-304 | filing a new reference keeps every other reference's versions |
| Templates.KeepsPut | src/create_lib.py:305-316 | replacing a reference's versions by grown ones, with possibly one more appended, keeps the library |
| Templates.WidenGrows | src/create_lib.py:237 | widening a stored version's user properties grows it |
| Templates.Cells | src/create_lib.py:296 | one subgraph per vertex |
| Templates.OnFileMeaning | src/create_lib.py:306-316 | a cell is on file exactly when some version is built from it or accepts it |
| Templates.OnFileAt | src/create_lib.py:306-316 | a version that is or accepts the cell puts it on file |
| Templates.KeepsCellOnFile | src/create_lib.py:292-317 | a cell on file stays on file as the library grows |
| Templates.CoversUpToMeaning | src/create_lib.py:295 | the pass so far has every hierarchical vertex before `n` on file |
| Templates.KeepsCoversUpTo | src/create_lib.py:295-316 | later filing does not undo earlier coverage |
| Templates.AllOnFileMeaning | src/create_lib.py:292-317 | the subgraph of every hierarchical vertex is on file under the vertex's reference |
| Templates.HierRefsMeaning | src/create_lib.py:295-304 | a reference is collected exactly when some hierarchical vertex has it |
| Templates.GrewUnchanged | src/create_lib.py:299-304 | filing without appending to an existing reference leaves the new-data flag's meaning unchanged |
| Templates.TidyPut | src/create_lib.py:292-317 | replacing a reference's versions by tidy ones keeps the library tidy |
| Templates.DedupSnoc | src/create_lib.py:312-316 | appending a version no stored one accepts keeps the versions free of mutual matches |
| Templates.DedupWiden | src/create_lib.py:237 | widening user properties does not affect deduplication |
| Templates.FindVersion | src/create_lib.py:306-311 | the search loop stops at exactly `FirstMatch` |
| Templates.FileVersion | src/create_lib.py:305-316 | the first accepting version is widened; only when none accepts is a new version appended; the cell is then on file and the versions stay tidy |
| Templates.PassStep | src/create_lib.py:295-316 | filing one vertex carries the pass invariant from `i` to `i + 1` |
| Templates.CollectedStep | src/create_lib.py:295-304 | filing one vertex adds its reference, if hierarchical, to the library's keys |
| Templates.TemplateLibrary.constructor | src/create_lib.py:330 | an empty, tidy library |
| Templates.TemplateLibrary.AddCell | src/create_lib.py:296-316 | files one cell under its reference, keeps every other reference, and appends a version exactly when none of the stored ones accepts the cell |
| Templates.TemplateLibrary.FileVertex | src/create_lib.py:295-316 | one turn of the loop: a hierarchical vertex is filed, a primitive passed over |
| Templates.TemplateLibrary.CreateTemplates | src/create_lib.py:292-317 | every hierarchical cell of the design ends up on file; the keys grow by the design's references; the result is set exactly when a reference received another version |
| Templates.TemplateLibrary.CreateSubmodules | src/create_lib.py:320-344 | after the run every cell of every design is on file, and nothing filed before is lost |
| Templates.CatalogMeaning | src/create_lib.py:353-375 | the manifest lists each version with its primitive spans, each with its size and no matches, and its primitive count |
| Templates.UsedMeaning | src/create_lib.py:362-377 | `used` lists, for each reference, exactly the references whose versions contain it as a hierarchical non-root vertex |
| Replace.IncidentComplete | src/search_lib.py:122-128 | every edge at a vertex on the chosen side is listed by `in_edges()`/`out_edges()` |
| Replace.Filtered | src/search_lib.py:124 | the comprehension keeps only listed edges on the requested pin |
| Replace.FilteredComplete | src/search_lib.py:124 | every listed edge on the requested pin is kept |
| Replace.Pinned | src/search_lib.py:123-124 | `es1` holds only edges at the cell on the opposite side whose pin matches |
| Replace.PinnedMeaning | src/search_lib.py:123-131 | `es1` is empty exactly when the cell has no edge on that pin |
| Replace.HasPinGrows | src/search_lib.py:177-221 | a pin found before edges are appended is still found after |
| Replace.SideFits | src/search_lib.py:122-131 | one loop of the pre-check passes exactly when every root edge on that side finds its pin |
| Replace.ReplacePreCheck | src/search_lib.py:119-132 | returns 1 exactly when some edge of the template root finds no edge of `v1` on the matching pin |
| Replace.LastWithId | src/search_lib.py:152-156 | the last template vertex carrying the id, and none after it does |
| Replace.Range | src/search_lib.py:164 | the consecutive new indices |
| Replace.CopyVertices | src/search_lib.py:147-165 | appends every template vertex with its new index as id, prefixed by the cell's name when descending; descending, the new vertices are exactly the appended indices; ascending, the skeleton lands on the copy of the template vertex with its id, and 0 is listed too |
| Replace.ChasedTargetOvershoots | src/search_lib.py:152-156 | as written, the ascend loop compares ids with the already overwritten `v1_id` and settles on the wrong vertex |
| Replace.Shifted | src/search_lib.py:169-175 | each template edge renumbered by the number of vertices already present |
| Replace.CopyEdges | src/search_lib.py:169-175 | the edge loop appends every template edge between the copies, in order |
| Replace.LinkedGrows | src/search_lib.py:177-221 | a bypass edge stays one when more edges are appended |
| Replace.BypassGrows | src/search_lib.py:177-221 | all bypass edges stay bypass edges as the loop appends more |
| Replace.AddBypasses | src/search_lib.py:182-198 | the inner loop appends exactly one bypass edge for the root edge and each cell edge on its pin, in the order of those cell edges, and changes nothing else |
| Replace.Rewire | src/search_lib.py:177-221 | one rewiring loop gives `Rewired` over every root edge on that side, or stops at the first root edge whose pin the cell lacks, with the graph as far as it got; it appends only bypass edges and keeps the old ones; it succeeds whenever every root edge on that side finds its pin and, absent a direct root-to-cell edge, only then |
| Replace.Rewired | src/search_lib.py:177-221 | after the first `k` root edges the vertices and every old edge are unchanged, new edges coming after them |
| Replace.RewiredLinks | src/search_lib.py:177-221 | for every root edge among the first `k` and every cell edge on its pin, the bypass edge is present |
| Replace.AllLinks | src/search_lib.py:177-221 | a whole rewiring loop adds the bypass for every root edge and every cell edge on its pin |
| Replace.PinBack | src/search_lib.py:177-204 | without a direct root-to-cell edge, bypass edges create no pin the cell lacked |
| Replace.Detach | src/search_lib.py:225-231 | the deletion keeps exactly the edges at neither replaced vertex |
| Replace.Blacken | src/search_lib.py:222-224 | colouring keeps the vertex count |
| Replace.SwapTop | src/search_lib.py:232-241 | `contract_vertices` exchanges vertex 0 and vertex `n`, their ids become their indices, every later vertex gets the new root's name in front, and edges are renumbered accordingly |
| Replace.CopiedEdge | src/search_lib.py:169-175 | the copy step's edges are the old ones, then the renumbered template ones |
| Replace.DescendFits | src/search_lib.py:143-175 | after a descend's copy step, a pre-check that passed still finds every pin at the copied root |
| Replace.InFitsAfterOut | src/search_lib.py:177-204 | the out-edge rewiring leaves the in-edge pins as the pre-check saw them |
| Replace.BypassesClassified | src/search_lib.py:184-217 | every edge after both rewiring loops is an old edge or has the class of its ends: "port" next to a green vertex, CONST1/CONST0 from VCC/GND, "primitive" otherwise |
| Replace.Unhook | src/search_lib.py:222-231 | both replaced vertices turn black and lose every edge; the remaining edges are exactly the old edges at neither vertex, in their order |
| Replace.Splice | src/search_lib.py:176-231 | rewiring then removal: succeeds whenever every root pin fits; on success the result is `Spliced` (out-side bypasses, in-side bypasses, then both vertices unhooked), both replaced vertices are black and isolated and every new edge is classified; on failure the old edges are all still there |
| Replace.SplicedKeeps | src/search_lib.py:176-231 | the splice keeps every edge at neither replaced vertex |
| Replace.SplicedLinks | src/search_lib.py:176-231 | the splice contains the bypass for every root edge and cell edge with matching pins, on both sides, unless it touches a replaced vertex |
| Replace.DescendKeeps | src/search_lib.py:169-231 | a descend keeps every skeleton edge away from the opened cell and every renumbered template edge away from the template root |
| Replace.DescendedVertices | src/search_lib.py:150-165 | the copy step and the blackening give a descend's vertices |
| Replace.AscendedVertices | src/search_lib.py:152-241 | the copy step, blackening and relabelling give an ascend's vertices |
| Replace.SwapEdges | src/search_lib.py:233-236 | `contract_vertices` renumbers each edge's ends, exchanging 0 and `n`, and keeps the edge count |
| Replace.Expanded | src/search_lib.py:147-175 | the copy loops give a well-formed graph with one new vertex per template vertex |
| Replace.SpliceDescend | src/search_lib.py:176-231 | after a descend's copy loops the rewiring cannot fail; the result is `Spliced` of the expanded graph at the cell and the copied root, with a descend's vertices |
| Replace.SpliceAscend | src/search_lib.py:176-241 | after an ascend's copy loops, a success gives an ascend's vertices, and its edges are those of the splice at the skeleton's stand-in and the old root with vertex 0 and the old vertex count exchanged |
| Replace.ReplaceHierCell | src/search_lib.py:135-243 | descending succeeds exactly when the pre-check passes and returns `g` unchanged otherwise; on success the vertices are the template's copies after `g` and the edges are exactly `Spliced` of `g` plus every renumbered template edge, so nothing away from the two replaced vertices is lost (`DescendKeeps`) and every matching bypass is added (`SplicedLinks`); ascending makes the template root the new root with the swapped edges of the splice; ids stay indices and no edge dangles |
| Replace.NearByAll | src/search_lib.py:255-257 | one scan of the whole edge list finds exactly the neighbours |
| Replace.Neighbourhood | src/search_lib.py:255-258 | `neighborhood(order=1, mindist=1)` flags exactly the vertices adjacent to a seed other than themselves |
| Replace.GetSpanningHierCells | src/search_lib.py:246-266 | exactly the green vertices other than the root next to a seed, each once |
| Replace.MatchedMono | src/compare_v.py:283-414 | a vertex match under a mapping still holds once the mapping is extended |
| Replace.UpdateMap | src/search_lib.py:268-296 | a success extends the mapping, keeps it injective and leaves every rechecked neighbour matched; with every neighbour at the edge limit the mapping comes back as it was |
| Replace.ConstLabelled | src/search_lib.py:638-645 | an edge out of GND is CONST0, out of VCC CONST1, any other is unchanged |
| Replace.LabelOutEdges | src/search_lib.py:640-641 | sets the signal on exactly the out-edges of `v` |
| Replace.LabelSources | src/search_lib.py:639-641 | sets the signal on exactly the out-edges of the vertices with that reference |
| Replace.LabelConstSources | src/search_lib.py:638-645 | every edge ends up as `ConstLabelled` says, with no vertex or edge added or removed |
| Replace.LabelIdempotent | src/search_lib.py:638-645 | labelling twice is labelling once |
| Search.KeysGrow | src/search_lib.py:319-321 | a mapping extended by `update_map` still has only design vertices as keys |
| Search.Untried | src/search_lib.py:357-361 | the versions tried at a cell are exactly those not yet known to fail there, in ascending order |
| Search.TallySplits | src/search_lib.py:364-372 | every version is either passing or failing, by whether its report is non-zero |
| Search.MaxScoreIsMax | src/search_lib.py:389-392 | no report beats the maximum, and a positive maximum is some version's report |
| Search.PickBest | src/search_lib.py:389-392 | `best_length` becomes the larger of itself and the best report, and `best_decision` moves only on strict improvement, to the first version with that report |
| Search.HasComplexPrim | src/search_lib.py:591-594 | true exactly when some span vertex is a DSP48E1 |
| Search.SelectRef | src/search_lib.py:599 | `g.vs.select(ref=...)` gives exactly the design vertices with that reference, in order |
| Search.Candidates | src/search_lib.py:460-463 | one candidate per recorded (version, position) pair |
| Search.CandidatesFrom | src/search_lib.py:460-463 | every candidate is a recorded pair under its reference |
| Search.CandidatesNonEmpty | src/search_lib.py:437-438 | references are recorded only with pairs, so a recorded reference gives a candidate |
| Search.LargestIsFirstMax | src/search_lib.py:615-617 | keeping on strict `>` yields a mapping no smaller than any seen, the first of the largest |
| Search.LastLargestIsLastMax | src/search_lib.py:476-478 | keeping on `>=` yields the last of the largest mappings |
| Search.Widened | src/search_lib.py:383-386 | the new vertices join `limit_vertices`, which then exists |
| Search.Searcher.constructor | src/search_lib.py:57-60 | a searcher over a well-formed library, with an empty failure cache |
| Search.Searcher.DescendParallel | src/search_lib.py:311-329 | a version that fails the port rule reports failure; a success is the template grown at the cell with an extended, agreeing mapping |
| Search.Searcher.RunVersions | src/search_lib.py:362-363 | one report per version, each as `descend_parallel` gives it |
| Search.Searcher.Tally | src/search_lib.py:364-373 | the passing versions in order with the sum of their primitive counts; every failing version joins the failure cache of the cell |
| Search.Searcher.Conclude | src/search_lib.py:373-394 | the average rule for `decision_list`, then: one passing version is applied and widens `limit_vertices`; several may update `best_decision`; none clears the pass flag |
| Search.Searcher.DescendVertex | src/search_lib.py:344-394 | one cell of a pass: tried versions are those not known to fail, the failing ones are cached, and the pass state changes as `Conclude` says |
| Search.Searcher.Descend | src/search_lib.py:331-404 | the grown template stays usable and no smaller, the mapping extends the given one and stays injective, decisions point at cells and versions that exist, and the loop ends on a pass in which every spanning cell is quiet: its reference has templates and the versions the failure cache leaves open there all fit, and are not exactly one |
| Search.Searcher.DescendPass | src/search_lib.py:344-398 | one pass over the spanning cells keeps the template usable and the mapping extending and injective, widens the vertex limit by every added vertex, and a pass that applied nothing leaves the template as it was with every cell quiet |
| Search.QuietStep | src/search_lib.py:357-386 | a cell where other than exactly one version passed is quiet after its failures are cached, and earlier cells of the pass stay quiet |
| Search.AscendingSame | src/search_lib.py:357-372 | two ascending version lists with the same members are equal, so the versions left open at a cell are exactly the passing ones |
| Search.LimitGrows | src/search_lib.py:383-386 | widening the limit by the vertices one version added gives the limit widened by everything added since the pass began |
| Search.Searcher.TryVersion | src/search_lib.py:417-436 | each passing position of one version is counted and recorded; the first pass of the whole ascend is kept |
| Search.Searcher.TryReference | src/search_lib.py:415-438 | every version of a containing reference is tried in order, collecting its passing pairs |
| Search.Searcher.Ascend | src/search_lib.py:406-443 | the template changes only when exactly one replacement passes, and then grows with an extending mapping; the recorded references are those using the root's reference, once each |
| Search.Searcher.Settle | src/search_lib.py:491-505 | descend then ascend until a round leaves the size unchanged; the mapping only grows and stays injective, the template stays usable, the last ascend recorded other than exactly one candidate, and the last descend pass left every spanning cell quiet |
| Search.Searcher.RecurseDescend | src/search_lib.py:445-453 | applies the chosen version at the chosen cell; raises when the cell, reference or version is missing or the port rule fails |
| Search.Searcher.TryCandidate | src/search_lib.py:464-475 | one ascend candidate opened up and searched greedily one level deeper keeps the template usable and returns a mapping extending the given one |
| Search.Searcher.RecurseAscend | src/search_lib.py:455-482 | with no decisions, returns its input with a clear flag; otherwise one mapping per candidate, each extending the given one, the kept one being the last of the largest, and the flag is clear exactly when it beats the given one |
| Search.Searcher.RunReplaceGreedy | src/search_lib.py:484-521 | from depth 2 returns its input; otherwise the result is a usable template whose mapping, keyed by design vertices, extends the given one |
| Search.Searcher.TryChoice | src/search_lib.py:554-570 | every version of the last decision list, applied and searched deeper, adds its mapping at the end of those met so far, and the largest of them is kept |
| Search.Searcher.RunReplace | src/search_lib.py:523-581 | the result is the first largest of the mappings met along the way, the first of which extends the given mapping; the pass flag carries over rounds |
| Search.Searcher.ReplaceRound | src/search_lib.py:531-580 | one round of `run_replace`: settle, update the biggest pair, follow a decision; the mappings met only grow at their end and the biggest is their first largest; the loop stops when the flag is clear and there was no decision |
| Search.Searcher.FollowRound | src/search_lib.py:552-574 | a descend decision tries every version and continues from the biggest, keeping the pass flag; otherwise `recurse_ascend` decides the next template and flag |
| Search.Searcher.Seed | src/search_lib.py:599-604 | a seed exists only when the references agree, holds the anchor pair and more, and is injective and agreeing |
| Search.Searcher.SeedSpan | src/search_lib.py:597-617 | the kept mapping is the first largest over the span's seeds, and each mapping added came from a distinct design vertex, in order, that has the anchor's reference, passes `compare_ref`, and is still mapped to the anchor |
| Search.Searcher.FindTemplate | src/search_lib.py:583-618 | the result is the first largest mapping over all kept spans, with a template exactly when it is non-empty; each mapping met came from a seed at the first vertex of a span the size/DSP48E1 filter keeps, so a non-empty result is anchored in such a span |
| Search.Searcher.FindSpan | src/search_lib.py:588-617 | one span: a span of at most five vertices without DSP48E1 adds nothing; a kept span with no vertex raises; otherwise its seeds' mappings are added |
| Search.LargestAnchored | src/search_lib.py:615-618 | the first largest mapping of a `find_template` is empty or grew from a seed at the first vertex of a kept span |
| Search.Searcher.Search | src/search_lib.py:620-636 | the result is the first largest mapping over every version of every reference, each visited once, with a template exactly when it is non-empty, and a non-empty result grew from a kept span's seed of some visited version |
| Search.Searcher.SearchVersion | src/search_lib.py:624-634 | one version joins the visited ones with what its `find_template` returned, and the biggest pair stays the first largest |
| Search.LargestVisited | src/search_lib.py:630-636 | the first largest mapping of `search` is empty or anchored in a kept span of some visited version |
| Hierarchy.EditKeeps | src/search_lib.py:725-730 | a `setdefault` walk that appends a leaf or does nothing loses no node and no leaf already in the tree |
| Hierarchy.AtSame | src/search_lib.py:727 | appending to a node's own leaves keeps every node below it |
| Hierarchy.EditReaches | src/search_lib.py:725-730 | the walk creates every node of its path, and an appended leaf is listed at its end |
| Hierarchy.StepKeeps | src/search_lib.py:720-732 | handling one vertex loses nothing already in the tree |
| Hierarchy.ShownKept | src/search_lib.py:720-732 | what a vertex put in the tree stays there as the tree grows |
| Hierarchy.StepShows | src/search_lib.py:724-730 | an orange vertex's last name segment is listed under the node of its parent path, and a green vertex has a node for its whole path; blue and black vertices are not filed |
| Hierarchy.StepKeepsShown | src/search_lib.py:720-732 | a later vertex does not undo what an earlier one showed |
| Hierarchy.BuildShowsAll | src/search_lib.py:718-732 | after the loop every orange vertex is listed under its parent path and every green vertex has a node; blue and black vertices are not filed |
| Hierarchy.PrintJsonMap | src/search_lib.py:714-732 | the loop builds exactly `Build`, in which every orange and every green vertex shows; blue and black vertices are not filed |
| Hierarchy.SegmentsOne | search_lib.py:213 | a name without '/' splits into itself |
| Hierarchy.SegmentsTwo | search_lib.py:213 | `p/x` splits into `p` and `x` |
| Hierarchy.ResetDropsLeaf | search_lib.py:222-224 | replacing a node by `{"LEAF": []}` drops the leaf an earlier primitive put there |
| Hierarchy.GreenSteps | search_lib.py:216-224 | a top-level hierarchical cell: src walks into it, legacy resets it |
| Hierarchy.OrangeSteps | search_lib.py:216-222 | a primitive `p/x`: both versions append `x` under `p` |
| Hierarchy.LegacyLosesLeaf | search_lib.py:211-226 | a primitive `p/x` followed by its cell `p` leaves `x` out of the legacy tree, while the src tree lists it |
| CreateData.Zeroed | create_data.py:246-247 | exactly the digits below `m` become 0 |
| CreateData.Zeros | create_data.py:230-231 | one 0 per property |
| CreateData.ValueUpdate | create_data.py:138-143 | writing one digit changes the odometer's number by the difference times that digit's place value |
| CreateData.PlacePositive | create_data.py:140 | with every radix positive, every place value is at least one |
| CreateData.ValueBelow | create_data.py:135-151 | digits in range stand for a number below the product of all radixes |
| CreateData.ZeroedValue | create_data.py:246-247 | zeroing the low digits subtracts exactly what they stood for |
| CreateData.CarryValue | create_data.py:139-146 | the carry loop leaves every digit in range and the number unchanged, except that a carry out of the last digit (-1) subtracts the full product |
| CreateData.CarryBounds | create_data.py:139-146 | the carry loop returns -1 or an index in `[msb, len)`, touches no digit below where it starts, and none more than one above the returned index; `CarryWrapped` says which digit it is |
| CreateData.IncrBounds | create_data.py:135-151 | an index past the digits changes nothing and is returned; otherwise the result is -1 or in `[i, len)`, the digits below `i` are kept, and so are those above the returned index plus one; `IncrWrapped` says which digit the returned index is |
| CreateData.CarryWrapped | create_data.py:139-146 | the carry loop returns -1, the `msb` it started with when no digit wrapped, or the highest digit it wrapped, which it left at 0 |
| CreateData.IncrWrapped | create_data.py:135-151 | `incr_current(i)` returns -1, `i` when no digit above `i` wrapped, or the highest digit that wrapped, now 0; with `IncrBounds`, the digits above the next one are untouched |
| CreateData.IncrValue | create_data.py:135-151 | `incr_current(i)` adds the place value of digit `i` to the number, wrapping to 0 exactly when it returns -1, and keeps every digit in range |
| CreateData.SkipNewAdvances | create_data.py:249-250 | after a design with new data the odometer moves up by one unless the sweep stops |
| CreateData.SkipOldAdvances | create_data.py:244-248 | after a design without new data the low digits go and digit `msb + 1` goes up, so the number grows unless the sweep stops |
| CreateData.SkipAdvances | create_data.py:244-251 | every round with `msb` at most the number of digits succeeds, keeps the digits in range, and either stops or returns a digit index and a larger number |
| CreateData.EmptySweepRaises | create_data.py:235-251 | with no property, a round without new data returns 1, which the `== len(key_list)` test lets through, and the next such round indexes an empty list |
| CreateData.SweepStarts | create_data.py:235-236 | the sweep starts one step past all zeros with no design made |
| CreateData.SweepEnds | create_data.py:237-252 | a finished sweep has made at least one design, the first at the start state, and its last round stops |
| CreateData.SweepStep | create_data.py:237-252 | one more round keeps the sweep's invariant, and a round that does not stop moves the number up |
| CreateData.Odometer.constructor | create_data.py:230-231 | `current_list` starts as one 0 per property and `used_list` empty |
| CreateData.Odometer.IncrCurrent | create_data.py:135-151 | the in-place carry loop leaves `current_list` and the returned index as `Incr` says |
| CreateData.Odometer.RandomCurrent | create_data.py:161-169 | the first unused draw becomes `current_list` and is appended to `used_list`; when every draw was used, `used_list` is unchanged |
| CreateData.Odometer.Advance | create_data.py:244-250 | one round in place is `SkipStep` |
| CreateData.Odometer.RunAllSkip | create_data.py:212-252 | the designs are successive rounds from one past all zeros, the last round stops, every design is in range, their numbers strictly increase (so no combination repeats), and there are at most as many as combinations |
| Text.Replace | src/compare_v.py:204-207 | `str.replace` with a non-empty pattern: a text in which the pattern does not occur comes back unchanged |
| Text.DropLast | src/compare_v.py:210-214 | `s[:-1]`: one character shorter and a prefix of `s`; the empty text stays empty |
| Text.FindAll | src/compare_v.py:224-225 | the start offsets of `re.finditer` on a literal pin name: every offset is an occurrence, and the offsets strictly increase (completeness is `FindAllComplete`) |
| Text.FindAllFromComplete | src/compare_v.py:224-225 | for a pattern that cannot overlap itself, every occurrence at or after `i` is listed |
| Text.FindAllComplete | src/compare_v.py:224-225 | for a pattern that cannot overlap itself, every occurrence is listed, so `re.finditer` misses none |
| Text.FindAllFromEmpty | src/compare_v.py:224-225 | an empty offset list from position `i` means the pin name occurs nowhere at or after `i` |
| Text.LastSegment | src/create_lib.py:70 | `split("/")[-1]`: a suffix of the name holding no '/', and the whole name when it has no '/' |
| Text.RSplitLast | src/create_lib.py:105 | `rsplit("/", 1)`: one part exactly when the name has no '/'; otherwise head + "/" + tail rebuilds the name and the tail is its last segment |
| Text.Segments | src/search_lib.py:721 | `split("/")`: at least one segment, none containing '/', the last being the text after the last '/' |
| Text.SegmentsRSplit | src/search_lib.py:721 | for a name with a '/', the segments are those of the part before the last '/' followed by the part after it |
| Text.SegmentsJoin | src/search_lib.py:721 | joining the segments with '/' gives back the name, so `split` loses nothing |
| Text.Upper | src/create_lib.py:190 | `str.upper()` on ASCII: same length, each lower-case letter raised and every other character kept |
| Text.ContainsWitness | src/compare_v.py:204-207 | a pattern that is `in` the text occurs at some offset |

## Left out

- File I/O is not modelled: pickling, JSON, directory listing, Vivado/TCL invocation, checkpoints, `print_graph`, `print_map_cells`, `print_all_cells` and all `print` output. Designs and template catalogues are parameters instead.
- The multiprocessing `Pool` in `descend` (src/search_lib.py:362-363) is modelled as a sequential map over the versions. Results keep their order. `export_designs`' pool runs Vivado and is left out with the rest of the I/O.
- Average sizes are computed as reals. Floating-point rounding is not modelled.
- The search engine's loops carry no termination argument in the source. The model gives them a fuel parameter and an `OutOfFuel` outcome. Fuel is put only on the loops the source does not bound. Any finite fuel can run out on a run the source finishes, so every driver's contract speaks of `Ok` results only.
- The `src/` search engine never loads `self.templates` or `self.used_list` (src/search_lib.py:57-60). The template catalogue and the `used` manifest are both constructor arguments of `Search.Searcher`.
- `src/` `descend_parallel` reads `self.v_par_id` and `self.return_mapping`, which `descend` never assigns. The model follows the legacy semantics, where these are globals set by `descend`.
- `add_edges` and the edge-attribute assignments belong to python-igraph (src/create_lib.py:138-143). `Importer.Attach` models them as repeating a shorter non-empty list from its start and refusing an empty list while edges exist; igraph's own error text is not modelled.
- Python exceptions (IndexError, KeyError) are modelled as `Raises`/`Raised` outcomes. Tracebacks are not modelled.
- Calls with the wrong arity are modelled with the intended arguments. These are the seven-argument `compare_vertex` calls and similar arity and spelling defects of the search code.
- `out_edges` without a call (src/compare_v.py:273) is modelled as the call that was evidently meant. As written, that line would raise.
- Iteration order over Python sets is not modelled. This covers `update_map`'s worklist, `get_spanning_hier_cells` and the manifests' `used` lists. The model fixes one order or uses sets, and its contracts do not depend on the order.
- `descend_failed_dict` is modelled as a set of failed pairs.
- `GREEDY` is taken as `True`. `find_template` and `recurse_ascend` follow the greedy path. The non-greedy `run_replace` is modelled separately as `Search.Searcher.RunReplace`.
- A hierarchy segment that happens to be named "LEAF" would clash with the leaf list of `print_json_map`. The model keeps leaves in a separate field.
- The legacy `print_json_map` builds `mapping_rev` and never uses it, so the model leaves it out.
- `random_current`'s unbounded retry loop draws from a finite sequence of draws passed in. Running out of draws ends the call.
- CreateData.Odometer.RunAllSkip: requires every radix to be positive. With an empty value list, `generate_current` indexes that empty list (`value_list[i][current_list[i]]`, create_data.py:175-176) and raises IndexError on the first design, whatever the digit holds; for the first digit, `incr_current` has made it 1, which never equals the length 0, so it never wraps either.
- `random.randint(0, -1)` on a radix of 0 would raise in `random_current` (create_data.py:161-169). `CreateData.Odometer.RandomCurrent` takes draws within each radix, so no draw exists for such a digit.
- `generate_current`, `add_to_library` and `has_new_data` involve Vivado and the file system. They are supplied as an oracle `newData`.
- The `src/compare_v.py` copy of `import_design` and `create_edges_flat`/`create_edges_hier` is not modelled separately. Its vertex rules (src/compare_v.py:49-70) are those of `Importer.CellVertex`. Its edge code breaks on the `"out_pint"` key typo (src/compare_v.py:87, 129) and returns a tuple (src/compare_v.py:176).
- Other call defects are noted and not reproduced: `import_design(design)` with one argument (src/search_lib.py:75), the `print_json_map` arity mismatch (src/search_lib.py:91 against 714), and the undefined `graph_obj` (search_lib.py:101, 103).
- The src `save_checkpoint` is a generator, so its calls do nothing. Checkpoints are left out with the other file I/O.
- The legacy `search_lib.py` replacement steps, neighbour selection, `update_map`, `descend`/`ascend`/`recurse_ascend`, `run_replace` and `label_const_sources` follow the same rules as the src ones and share their members. Only `print_json_map` differs, and it has its own model (`Hierarchy.LegacyBuild`).
- `compare_vertex_verbose`, `src/test_parse.py`, `src/tests.py`, the `DataGenerator` TCL writer of `src/create_data.py`, `add_to_library`, the dead `run_v1` tail of `create_data.py` and the argparse/`main` plumbing are left out. They only print, call external tools, or are never reached.
- The `CELL_NAME` attribute is carried as an optional vertex field. It is read only by the diagnostics `print_map_cells` and `print_all_cells`, which are left out.
- Search.Searcher.RunReplaceGreedy: promises a usable template whose mapping extends the given one. It does not tie the result to the decisions taken along the way.
- Search.Searcher.TryCandidate: promises a usable template and an extending mapping. It does not state which mapping the candidate's deeper search returns.
- Search.Searcher.TryVersion: states the count, the recorded pairs and the first pass, but not which positions pass. Whether a position passes depends on the ascend direction of `replace_hier_cell` and on `update_map`, which have no success function in the model.
- Search.Searcher.TryReference: same as `TryVersion`, for every version of one reference.
- Search.Searcher.Ascend: states when the template changes and which references are recorded, but not which positions pass, for the reason given for `TryVersion`.
- Search.Searcher.RecurseAscend: ties each tried mapping to the given mapping only (each extends it), not to the outcome of its own candidate's deeper search.
- Search.Searcher.TryChoice: does not tie each version's mapping to its nested search. `return_mapping` is shared and the nested descends overwrite it, so that result has no function of the inputs.
- Search.Searcher.RunReplace: the same holds for the mappings met in nested rounds. Only the first one is tied to the input, by extending it.
- Search.Searcher.SeedSpan: does not state which seeds pass `compare_vertex`, nor tie each mapping to the greedy search's result beyond holding the seed pair. The "more than one pair" rule is stated on `Search.Searcher.Seed`.
- Search.Searcher.FindTemplate: the same limit as `SeedSpan`, for every kept span.
- Search.Searcher.Search: visits references in an order chosen by `:|`, not dict insertion order (src/search_lib.py:623-624). The order matters beyond ties: `descend_failed_dict` (src/search_lib.py:60) is shared by every reference and never cleared, and it is keyed by template vertex index, so the same index in another reference's template shares the cached failures. Failures cached while searching one reference can thus block versions in the descends of later references, so the visiting order can change every later result.
- Replace.UpdateMap: states properties that hold in every worklist order, not the exact mapping a given set order produces.
- Text.Upper: raises ASCII letters only. Python's `str.upper()` (src/create_lib.py:190) also maps non-ASCII letters and may change the length, for example `ß` to `SS`.
- Text.Replace: states only that a text without the pattern comes back unchanged. The full rewriting is its body.

## Findings

| source | as written | input that shows it | evidently intended | confidence | as-written member | corrected member |
|---|---|---|---|---|---|---|
| src/create_lib.py:170-177 | the edge loop indexes `g.es[i]` with a counter of all selected edges, including the skipped ones, so the copied edges run past the subgraph's edge list | a cell `t` with child `a`, whose first selected edge is skipped and whose second is copied: the second copy raises IndexError | copy every kept edge into the subgraph, indexed by the kept edges only | not executed | Library.SkippedEdgeBreaksSubgraph | Library.GetModuleSubgraph |
| src/search_lib.py:152-156 | `v1_id` is chased through the id list repeatedly, so it moves past the vertex meant | template ids `[0, 1, 2, 3]`, skeleton size 2, template vertex 1: the loop ends at 5 instead of 3 | offset the template vertex once by the skeleton size | not executed | Replace.ChasedTargetOvershoots | Replace.CopyVertices |
| search_lib.py:224 | a green hierarchical cell replaces its tree node with a fresh one, dropping whatever was filed under it earlier | primitive `p/x` listed before green cell `p`: `x` disappears from under `p` | keep the existing node (`setdefault`, as src/search_lib.py:714-732 does) | not executed | Hierarchy.LegacyLosesLeaf | Hierarchy.BuildShowsAll |
| create_data.py:244-251 | the sweep stops only when `msb_incr == len(key_list)` | no enumerable property: a skipped design returns index 1, which is not 0, so the sweep goes on, and the next skipped design raises IndexError on an empty `current_list` | stop once the carry reaches or passes the last index (`>=`) | not executed | CreateData.EmptySweepRaises | CreateData.Odometer.RunAllSkip |
