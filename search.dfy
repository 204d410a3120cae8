// The search engine of `search_lib.py`: descend into hierarchical cells of
// a growing template, ascend into the templates that contain it, and keep
// the largest mapping of design vertices onto template vertices.

module Search {
  import opened Wrappers
  import opened Netlist
  import opened Matcher
  import opened Templates
  import opened Replace

  /** Design vertex index to template vertex index. */
  type Mapping = map<int, int>

  /**
   * The end of a search step: a value; an exception the source raises
   * (a `KeyError`, or unpacking the 0 a failed step returns); or the
   * step budget running out on a loop the source has no bound for.
   */
  datatype Outcome<T> = Ok(value: T) | Raised | OutOfFuel

  /** A successful `descend_parallel`: the grown template, the mapping and the new vertices. */
  datatype Applied = Applied(graph: Graph, mapping: Mapping, newVertices: seq<nat>)

  /** `decision_list` of `descend`: the vertex, its reference and the versions that passed. */
  datatype Choice = Choice(v: nat, ref: string, versions: seq<nat>)

  /** `best_decision` of `descend`: one vertex, reference and version. */
  datatype Decision = Decision(v: nat, ref: string, version: nat)

  /** One entry of `ascend`'s `decision_list`: a containing reference and its passing (version, position) pairs. */
  datatype Lift = Lift(ref: string, matches: seq<(nat, nat)>)

  /** A template graph the engine can work on: well formed, with a root, ids equal to indices. */
  predicate Usable(g: Graph)
  {
    WellFormed(g) && 0 < |g.vs| && IdsAreIndices(g)
  }

  /** Every key of the mapping is a vertex of the design. */
  predicate KeysIn(m: Mapping, g: Graph)
  {
    forall k :: k in m ==> 0 <= k < |g.vs|
  }

  /** An extension whose new pairs passed `compare_ref` keeps its keys in the design. */
  lemma KeysGrow(m2: Mapping, m1: Mapping, g: Graph, t: Graph)
    requires KeysIn(m1, g) && Extends(m2, m1) && NewPairsAgree(g, t, m2, m1)
    ensures KeysIn(m2, g)
  {
  }

  /** Every span index names a vertex of its version's graph. */
  predicate SpansIn(e: Entry)
  {
    forall s, i :: 0 <= s < |e.span| && 0 <= i < |e.span[s].indices| ==>
      0 <= e.span[s].indices[i] < |e.graph.vs|
  }

  /** The library as the engine reads it: every version's graph usable, every span inside it. */
  predicate LibraryOk(catalog: map<string, seq<Entry>>)
  {
    forall r, k :: r in catalog && 0 <= k < |catalog[r]| ==>
      Usable(catalog[r][k].graph) && SpansIn(catalog[r][k])
  }

  // ---------------------------------------------------------------------
  // descend's bookkeeping

  /**
   * The versions `descend` tries for a vertex: every version of the
   * reference, in order, except those recorded as failed for that vertex.
   */
  function Untried(n: nat, skip: set<nat>): (r: seq<nat>)
    ensures forall x: nat :: x in r <==> x < n && x !in skip
    ensures forall i, j :: 0 <= i < j < |r| ==> r[i] < r[j]
  {
    if n == 0 then []
    else
      var r := Untried(n - 1, skip);
      assert forall i :: 0 <= i < |r| ==> r[i] < n - 1 by {
        forall i | 0 <= i < |r| ensures r[i] < n - 1 {
          assert r[i] in r;
        }
      }
      r + (if n - 1 in skip then [] else [n - 1])
  }

  /** What a `descend_parallel` worker reports: the mapping's size, or 0 on failure. */
  function Score(res: Option<Applied>): nat
  {
    if res.Some? then |res.value.mapping| else 0
  }

  /** The versions whose worker reported a non-zero size, in order. */
  function Passing(versions: seq<nat>, results: seq<Option<Applied>>): seq<nat>
    requires |versions| == |results|
  {
    if |versions| == 0 then []
    else
      var n := |versions| - 1;
      Passing(versions[..n], results[..n]) + (if Score(results[n]) > 0 then [versions[n]] else [])
  }

  /** The versions whose worker reported 0, in order. */
  function Failing(versions: seq<nat>, results: seq<Option<Applied>>): seq<nat>
    requires |versions| == |results|
  {
    if |versions| == 0 then []
    else
      var n := |versions| - 1;
      Failing(versions[..n], results[..n]) + (if Score(results[n]) == 0 then [versions[n]] else [])
  }

  /**
   * Every version tried lands on exactly the side its worker's report
   * says, and the two sides together have as many entries as were tried.
   */
  lemma {:induction false} TallySplits(versions: seq<nat>, results: seq<Option<Applied>>)
    requires |versions| == |results|
    ensures |Passing(versions, results)| + |Failing(versions, results)| == |versions|
    ensures forall i :: 0 <= i < |versions| && Score(results[i]) > 0 ==> versions[i] in Passing(versions, results)
    ensures forall i :: 0 <= i < |versions| && Score(results[i]) == 0 ==> versions[i] in Failing(versions, results)
    ensures forall x :: x in Passing(versions, results) || x in Failing(versions, results) ==> x in versions
  {
    if |versions| > 0 {
      var n := |versions| - 1;
      var pv, pr := versions[..n], results[..n];
      TallySplits(pv, pr);
      var p, f := Passing(versions, results), Failing(versions, results);
      assert p == Passing(pv, pr) + (if Score(results[n]) > 0 then [versions[n]] else []);
      assert f == Failing(pv, pr) + (if Score(results[n]) == 0 then [versions[n]] else []);
      forall i | 0 <= i < |versions|
        ensures (Score(results[i]) > 0 ==> versions[i] in p) && (Score(results[i]) == 0 ==> versions[i] in f)
      {
        if i < n {
          assert pv[i] == versions[i] && pr[i] == results[i];
        }
      }
      forall x | x in p || x in f ensures x in versions {
        if x in pv {
          var k :| 0 <= k < n && pv[k] == x;
          assert versions[k] == x;
        }
      }
    }
  }

  /** The sum of the primitive counts of the given versions. */
  function CountSum(entries: seq<Entry>, vs: seq<nat>): nat
    requires forall i :: 0 <= i < |vs| ==> vs[i] < |entries|
  {
    if |vs| == 0 then 0
    else CountSum(entries, vs[..|vs| - 1]) + entries[vs[|vs| - 1]].primitiveCount
  }

  /** `average`: the mean primitive count of the passing versions, 0 when none passed. */
  function Average(entries: seq<Entry>, passing: seq<nat>): real
    requires forall i :: 0 <= i < |passing| ==> passing[i] < |entries|
  {
    if |passing| == 0 then 0.0 else CountSum(entries, passing) as real / |passing| as real
  }

  /** The largest report among `results`, 0 for none. */
  function MaxScore(results: seq<Option<Applied>>): nat
  {
    if |results| == 0 then 0
    else
      var m := MaxScore(results[..|results| - 1]);
      if Score(results[|results| - 1]) > m then Score(results[|results| - 1]) else m
  }

  lemma {:induction false} MaxScoreIsMax(results: seq<Option<Applied>>)
    ensures forall i :: 0 <= i < |results| ==> Score(results[i]) <= MaxScore(results)
    ensures |results| > 0 && MaxScore(results) > 0 ==> exists i :: 0 <= i < |results| && Score(results[i]) == MaxScore(results)
  {
    if |results| > 0 {
      var n := |results| - 1;
      MaxScoreIsMax(results[..n]);
      assert forall i :: 0 <= i < n ==> results[..n][i] == results[i];
      if MaxScore(results[..n]) > 0 && Score(results[n]) <= MaxScore(results[..n]) {
        var i :| 0 <= i < n && Score(results[..n][i]) == MaxScore(results[..n]);
        assert Score(results[i]) == MaxScore(results);
      }
    }
  }

  /**
   * The loop over a tie of several passing versions: the first version
   * whose report beats the best length so far becomes the best decision,
   * and so does each later one that beats it again.
   */
  method PickBest(v: nat, ref: string, versions: seq<nat>, results: seq<Option<Applied>>,
                  best: Option<Decision>, bestLength: nat)
    returns (best': Option<Decision>, bestLength': nat)
    requires |versions| == |results|
    ensures bestLength' == if MaxScore(results) > bestLength then MaxScore(results) else bestLength
    ensures bestLength' == bestLength ==> best' == best
    ensures bestLength' > bestLength ==> exists i :: (0 <= i < |results| &&
      best' == Some(Decision(v, ref, versions[i])) && Score(results[i]) == bestLength' &&
      forall j :: 0 <= j < i ==> Score(results[j]) < bestLength')
  {
    best', bestLength' := best, bestLength;
    for i := 0 to |results|
      invariant bestLength' == if MaxScore(results[..i]) > bestLength then MaxScore(results[..i]) else bestLength
      invariant bestLength' == bestLength ==> best' == best
      invariant bestLength' > bestLength ==> exists k :: (0 <= k < i &&
        best' == Some(Decision(v, ref, versions[k])) && Score(results[k]) == bestLength' &&
        forall j :: 0 <= j < k ==> Score(results[j]) < bestLength')
    {
      assert results[..i + 1][..i] == results[..i];
      MaxScoreIsMax(results[..i]);
      assert forall j :: 0 <= j < i ==> results[..i][j] == results[j];
      if Score(results[i]) > bestLength' {
        best', bestLength' := Some(Decision(v, ref, versions[i])), Score(results[i]);
      }
    }
    assert results[..|results|] == results;
  }

  // ---------------------------------------------------------------------
  // find_template's span filter and seeds

  /** A span `find_template` searches from: more than five vertices, or one of them a DSP48E1. */
  predicate Kept(g: Graph, span: SpanEntry)
    requires forall i :: 0 <= i < |span.indices| ==> 0 <= span.indices[i] < |g.vs|
  {
    span.size > 5 || exists i :: 0 <= i < |span.indices| && g.vs[span.indices[i]].ref == "DSP48E1"
  }

  /** The `has_complex_prim` loop over a span's vertices. */
  method HasComplexPrim(g: Graph, indices: seq<int>) returns (found: bool)
    requires forall i :: 0 <= i < |indices| ==> 0 <= indices[i] < |g.vs|
    ensures found <==> exists i :: 0 <= i < |indices| && g.vs[indices[i]].ref == "DSP48E1"
  {
    found := false;
    for k := 0 to |indices|
      invariant found <==> exists i :: 0 <= i < k && g.vs[indices[i]].ref == "DSP48E1"
    {
      if g.vs[indices[k]].ref == "DSP48E1" {
        found := true;
      }
    }
  }

  /** `g.vs.select(ref=r)`: the vertices with reference `r`, in index order. */
  method SelectRef(g: Graph, r: string) returns (sel: seq<nat>)
    ensures forall x: nat :: x in sel <==> x < |g.vs| && g.vs[x].ref == r
    ensures forall i, j :: 0 <= i < j < |sel| ==> sel[i] < sel[j]
  {
    sel := [];
    for x := 0 to |g.vs|
      invariant forall y: nat :: y in sel <==> y < x && g.vs[y].ref == r
      invariant forall i, j :: 0 <= i < j < |sel| ==> sel[i] < sel[j]
    {
      if g.vs[x].ref == r {
        assert forall i :: 0 <= i < |sel| ==> sel[i] in sel;
        sel := sel + [x];
      }
    }
  }

  /** All (version, position) pairs of `ascend`'s decisions, in order. */
  function Flat(lifts: seq<Lift>): seq<(nat, nat)>
  {
    if |lifts| == 0 then [] else Flat(lifts[..|lifts| - 1]) + lifts[|lifts| - 1].matches
  }

  /** The candidates of `recurse_ascend`, in the order its two loops visit them: (reference, version, position). */
  function Candidates(lifts: seq<Lift>): (r: seq<(string, nat, nat)>)
    ensures |r| == |Flat(lifts)|
  {
    if |lifts| == 0 then []
    else
      var l := lifts[|lifts| - 1];
      Candidates(lifts[..|lifts| - 1]) + seq(|l.matches|, k requires 0 <= k < |l.matches| => (l.ref, l.matches[k].0, l.matches[k].1))
  }

  /** Every candidate comes from one lift, with that lift's reference and one of its pairs. */
  lemma {:induction false} CandidatesFrom(lifts: seq<Lift>, c: nat)
    requires c < |Candidates(lifts)|
    ensures exists i, k :: (0 <= i < |lifts| && 0 <= k < |lifts[i].matches| &&
      Candidates(lifts)[c] == (lifts[i].ref, lifts[i].matches[k].0, lifts[i].matches[k].1))
  {
    var n := |lifts| - 1;
    var front := Candidates(lifts[..n]);
    if c < |front| {
      CandidatesFrom(lifts[..n], c);
      var i, k :| 0 <= i < n && 0 <= k < |lifts[..n][i].matches| &&
        front[c] == (lifts[..n][i].ref, lifts[..n][i].matches[k].0, lifts[..n][i].matches[k].1);
      assert lifts[..n][i] == lifts[i];
    } else {
      var k := c - |front|;
      assert Candidates(lifts)[c] == (lifts[n].ref, lifts[n].matches[k].0, lifts[n].matches[k].1);
    }
  }

  /** A lift that names no passing pair is never recorded, so some lift means some candidate. */
  lemma {:induction false} CandidatesNonEmpty(lifts: seq<Lift>)
    requires forall i :: 0 <= i < |lifts| ==> |lifts[i].matches| > 0
    ensures |lifts| > 0 ==> |Candidates(lifts)| > 0
  {
    if |lifts| > 0 {
      assert |Flat(lifts)| >= |lifts[|lifts| - 1].matches|;
    }
  }

  // ---------------------------------------------------------------------
  // Keeping the largest mapping

  /** `biggest_map` after a strict `>` scan: the first mapping larger than everything before it wins. */
  function Largest(init: Mapping, ms: seq<Mapping>): Mapping
  {
    if |ms| == 0 then init
    else
      var b := Largest(init, ms[..|ms| - 1]);
      if |ms[|ms| - 1]| > |b| then ms[|ms| - 1] else b
  }

  /**
   * The strict scan keeps the largest size, and what it keeps is the
   * starting mapping or the first candidate of that size.
   */
  lemma {:induction false} LargestIsFirstMax(init: Mapping, ms: seq<Mapping>)
    ensures |init| <= |Largest(init, ms)|
    ensures forall i :: 0 <= i < |ms| ==> |ms[i]| <= |Largest(init, ms)|
    ensures Largest(init, ms) == init || exists i :: (0 <= i < |ms| && Largest(init, ms) == ms[i] &&
      |init| < |ms[i]| && forall j :: 0 <= j < i ==> |ms[j]| < |ms[i]|)
  {
    if |ms| > 0 {
      var n := |ms| - 1;
      LargestIsFirstMax(init, ms[..n]);
      assert forall i :: 0 <= i < n ==> ms[..n][i] == ms[i];
      var b := Largest(init, ms[..n]);
      if |ms[n]| > |b| {
        assert forall j :: 0 <= j < n ==> |ms[j]| < |ms[n]|;
      } else if b != init {
        var i :| 0 <= i < n && b == ms[..n][i] && |init| < |ms[..n][i]| &&
          forall j :: 0 <= j < i ==> |ms[..n][j]| < |ms[..n][i]|;
        assert Largest(init, ms) == ms[i];
      }
    }
  }

  /** `mapping_ascended` after `recurse_ascend`'s `>=` scan from an empty start: ties go to the later candidate. */
  function LastLargest(ms: seq<Mapping>): Mapping
  {
    if |ms| == 0 then map[]
    else
      var b := LastLargest(ms[..|ms| - 1]);
      if |ms[|ms| - 1]| >= |b| then ms[|ms| - 1] else b
  }

  /** The `>=` scan keeps the largest size, and what it keeps is the last candidate of that size. */
  lemma {:induction false} LastLargestIsLastMax(ms: seq<Mapping>)
    ensures forall i :: 0 <= i < |ms| ==> |ms[i]| <= |LastLargest(ms)|
    ensures |ms| > 0 ==> exists i :: (0 <= i < |ms| && LastLargest(ms) == ms[i] &&
      forall j :: i < j < |ms| ==> |ms[j]| < |ms[i]|)
  {
    if |ms| > 0 {
      var n := |ms| - 1;
      LastLargestIsLastMax(ms[..n]);
      assert forall i :: 0 <= i < n ==> ms[..n][i] == ms[i];
      var b := LastLargest(ms[..n]);
      if |ms[n]| < |b| {
        var i :| 0 <= i < n && b == ms[..n][i] && forall j :: i < j < n ==> |ms[..n][j]| < |ms[..n][i]|;
        assert LastLargest(ms) == ms[i];
      }
    }
  }

  // ---------------------------------------------------------------------
  // The searcher

  /** What `descend` returns: the template, the mapping, `best_decision`, `descend_pass_flag`, `decision_list`. */
  datatype Descent = Descent(graph: Graph, mapping: Mapping, best: Option<Decision>, passFlag: bool, choice: Option<Choice>)

  /** The locals `descend` carries from one hierarchical cell to the next. */
  datatype Pass = Pass(gt: Graph, limit: Option<seq<int>>, best: Option<Decision>, bestLength: nat,
                       bestAverage: real, passFlag: bool, choice: Option<Choice>, updated: bool)

  /**
   * A successful descend of template `hier` into vertex `v` of `g`, with
   * `update_map` run from `m0`: the port rule held, the vertices are as a
   * descend leaves them, and the mapping grew from `m0` with new pairs
   * that pass `compare_ref`.
   */
  ghost predicate Grown(g: Graph, hier: Graph, v: nat, m0: Mapping, a: Applied, design: Graph)
  {
    v < |g.vs| && 0 < |hier.vs| && PortsFit(g, v, hier) &&
    Descended(g, hier, v, a.graph) && a.newVertices == Range(|g.vs|, |hier.vs|) &&
    Usable(a.graph) && Extends(a.mapping, m0) && NewPairsAgree(design, a.graph, a.mapping, m0) &&
    KeysIn(a.mapping, design) && (Injective(m0) ==> Injective(a.mapping))
  }

  /**
   * How one hierarchical cell `v` of reference `ref` moves the pass from
   * `p` to `q`, the versions in `matches` having passed out of `tried`:
   * the pass flag needs a match, the best average and its choice follow
   * the average primitive count, a single match is opened up into the
   * template (and widens the vertex limit), several leave the template as
   * it was, and the best decision only ever moves to a version of `ref`
   * at `v` that was tried.
   */
  ghost predicate Concluded(catalog: map<string, seq<Entry>>, design: Graph, v: nat, ref: string, p: Pass,
                            tried: seq<nat>, matches: seq<nat>, q: Pass, m0: Mapping, m1: Mapping)
  {
    ref in catalog && (forall k :: 0 <= k < |matches| ==> matches[k] < |catalog[ref]|) &&
    q.passFlag == (p.passFlag && |matches| > 0) &&
    q.choice == (if Average(catalog[ref], matches) >= p.bestAverage
                 then Some(Choice(v, ref, matches)) else p.choice) &&
    q.bestAverage == (if Average(catalog[ref], matches) >= p.bestAverage
                      then Average(catalog[ref], matches) else p.bestAverage) &&
    (|matches| == 1 ==>
      var hier := catalog[ref][matches[0]].graph;
      var added := Range(|p.gt.vs|, |hier.vs|);
      Grown(p.gt, hier, v, m0, Applied(q.gt, m1, added), design) &&
      q.updated && q.limit == Widened(p.limit, added)) &&
    (|matches| != 1 ==> q.gt == p.gt && m1 == m0 && q.updated == p.updated && q.limit == p.limit) &&
    p.bestLength <= q.bestLength &&
    (|matches| <= 1 ==> q.best == p.best && q.bestLength == p.bestLength) &&
    (q.best == p.best ||
      (q.best.Some? && q.best.value.v == v && q.best.value.ref == ref && q.best.value.version in tried))
  }

  /** A concluded cell keeps what `descend` relies on between cells. */
  lemma ConcludedKeeps(catalog: map<string, seq<Entry>>, design: Graph, v: nat, ref: string, p: Pass,
                       tried: seq<nat>, matches: seq<nat>, q: Pass, m0: Mapping, m1: Mapping, base: Mapping)
    requires Concluded(catalog, design, v, ref, p, tried, matches, q, m0, m1)
    requires Usable(p.gt) && v < |p.gt.vs| && forall x :: x in tried ==> x < |catalog[ref]|
    requires DecisionIn(catalog, p.best, |p.gt.vs|) && ChoiceIn(catalog, p.choice, |p.gt.vs|)
    requires Extends(m0, base) && (Injective(base) ==> Injective(m0))
    ensures Usable(q.gt) && |p.gt.vs| <= |q.gt.vs|
    ensures DecisionIn(catalog, q.best, |q.gt.vs|) && ChoiceIn(catalog, q.choice, |q.gt.vs|)
    ensures Extends(m1, base) && (Injective(base) ==> Injective(m1))
  {
    if |matches| == 1 {
      ExtendsTrans(m1, m0, base);
    }
  }

  /** A second write to the same key of the failure cache replaces the first. */
  lemma Overwrite(f: map<nat, set<nat>>, v: nat, a: set<nat>, c: set<nat>)
    ensures f[v := a][v := c] == f[v := c]
  {
  }

  /** Ascending versions: the next one is new, and the prefix grows by it. */
  lemma TallyStep(versions: seq<nat>, i: nat)
    requires i < |versions| && forall a, b :: 0 <= a < b < |versions| ==> versions[a] < versions[b]
    ensures versions[..i + 1] == versions[..i] + [versions[i]] && versions[i] !in versions[..i]
  {
    assert versions[..i + 1] == versions[..i] + [versions[i]];
    forall k | 0 <= k < i ensures versions[..i][k] != versions[i] {
    }
  }

  /**
   * The passing versions after `i` reports of `descend`'s loop over the
   * workers: ascending, each among those reported, fitting the ports of
   * `v`, with `total` their primitive count.
   */
  ghost predicate MatchesSoFar(catalog: map<string, seq<Entry>>, v: nat, ref: string, versions: seq<nat>,
                               g: Graph, i: nat, matches: seq<nat>, total: nat)
  {
    i <= |versions| && ref in catalog &&
    (forall k :: 0 <= k < |matches| ==> matches[k] < |catalog[ref]|) &&
    (forall a, b :: 0 <= a < b < |matches| ==> matches[a] < matches[b]) &&
    (forall x :: x in matches ==>
      x in versions[..i] && x < |catalog[ref]| && PortsFit(g, v, catalog[ref][x].graph)) &&
    total == CountSum(catalog[ref], matches)
  }

  /** A passing report adds its version to the matches. */
  lemma MatchesPass(catalog: map<string, seq<Entry>>, v: nat, ref: string, versions: seq<nat>,
                    g: Graph, i: nat, matches: seq<nat>, total: nat)
    requires MatchesSoFar(catalog, v, ref, versions, g, i, matches, total) && i < |versions|
    requires forall a, b :: 0 <= a < b < |versions| ==> versions[a] < versions[b]
    requires versions[i] < |catalog[ref]| && PortsFit(g, v, catalog[ref][versions[i]].graph)
    ensures MatchesSoFar(catalog, v, ref, versions, g, i + 1, matches + [versions[i]],
                         total + catalog[ref][versions[i]].primitiveCount)
  {
    AscendingSnoc(versions, i, matches);
    assert (matches + [versions[i]])[..|matches|] == matches;
    assert versions[..i + 1] == versions[..i] + [versions[i]];
  }

  /** A failing report leaves the matches as they are. */
  lemma MatchesFail(catalog: map<string, seq<Entry>>, v: nat, ref: string, versions: seq<nat>,
                    g: Graph, i: nat, matches: seq<nat>, total: nat)
    requires MatchesSoFar(catalog, v, ref, versions, g, i, matches, total) && i < |versions|
    ensures MatchesSoFar(catalog, v, ref, versions, g, i + 1, matches, total)
  {
    assert versions[..i + 1] == versions[..i] + [versions[i]];
  }

  /** A version taken after the earlier ones keeps the matches ascending. */
  lemma AscendingSnoc(versions: seq<nat>, i: nat, matches: seq<nat>)
    requires i < |versions| && forall a, b :: 0 <= a < b < |versions| ==> versions[a] < versions[b]
    requires forall a, b :: 0 <= a < b < |matches| ==> matches[a] < matches[b]
    requires forall x :: x in matches ==> x in versions[..i]
    ensures forall a, b :: 0 <= a < b < |matches| + 1 ==> (matches + [versions[i]])[a] < (matches + [versions[i]])[b]
  {
    forall k | 0 <= k < |matches| ensures matches[k] < versions[i] {
      assert matches[k] in matches;
      var j :| 0 <= j < i && versions[..i][j] == matches[k];
    }
  }

  /** A passing version is not rejected. */
  lemma RejectedPass(versions: seq<nat>, i: nat, matches: seq<nat>)
    requires i < |versions| && versions[..i + 1] == versions[..i] + [versions[i]] && versions[i] !in versions[..i]
    ensures Rejected(versions[..i + 1], matches + [versions[i]]) == Rejected(versions[..i], matches)
  {
  }

  /** A failing version not yet among the matches is rejected. */
  lemma RejectedFail(versions: seq<nat>, i: nat, matches: seq<nat>)
    requires i < |versions| && versions[..i + 1] == versions[..i] + [versions[i]]
    requires versions[i] !in matches
    ensures Rejected(versions[..i + 1], matches) == Rejected(versions[..i], matches) + {versions[i]}
  {
  }

  /** The failure cache only grows. */
  predicate CacheGrows(before: map<nat, set<nat>>, after: map<nat, set<nat>>)
  {
    forall v :: v in before ==> v in after && before[v] <= after[v]
  }

  /** The versions recorded as failed for `v` so far. */
  function FailedAt(failed: map<nat, set<nat>>, v: nat): set<nat>
  {
    if v in failed then failed[v] else {}
  }

  /** Every reference in the `used` index has templates. */
  predicate UsedOk(catalog: map<string, seq<Entry>>, used: map<string, set<string>>)
  {
    forall u, x :: u in used && x in used[u] ==> x in catalog
  }

  /** (version, position) pairs of `ref` whose versions and positions exist. */
  predicate PairsIn(catalog: map<string, seq<Entry>>, ref: string, pairs: seq<(nat, nat)>)
    requires ref in catalog
  {
    forall k :: 0 <= k < |pairs| ==>
      pairs[k].0 < |catalog[ref]| && pairs[k].1 < |catalog[ref][pairs[k].0].graph.vs|
  }

  /** Pairs that exist and sit at vertices with reference `root`. */
  predicate PairsAt(catalog: map<string, seq<Entry>>, ref: string, pairs: seq<(nat, nat)>, root: string)
    requires ref in catalog
  {
    PairsIn(catalog, ref, pairs) &&
    forall k :: 0 <= k < |pairs| ==> catalog[ref][pairs[k].0].graph.vs[pairs[k].1].ref == root
  }

  /** A recorded lift: a reference with templates and passing pairs at vertices with reference `root`. */
  predicate LiftIn(catalog: map<string, seq<Entry>>, l: Lift, root: string)
  {
    l.ref in catalog && |l.matches| > 0 && PairsAt(catalog, l.ref, l.matches, root)
  }

  /** Lifts whose references, versions and positions all exist, each with at least one pair. */
  predicate LiftsIn(catalog: map<string, seq<Entry>>, lifts: seq<Lift>)
  {
    forall i :: 0 <= i < |lifts| ==>
      lifts[i].ref in catalog && |lifts[i].matches| > 0 && PairsIn(catalog, lifts[i].ref, lifts[i].matches)
  }

  /**
   * `recurse_ascend` after `c` candidates: their mappings `tried`, each
   * extending the mapping given, with the `>=` scan's pick among them.
   */
  ghost predicate TriedSoFar(design: Graph, mapping: Mapping, tried: seq<Mapping>, c: nat, gUp: Graph, mUp: Mapping)
  {
    |tried| == c && mUp == LastLargest(tried) && Usable(gUp) && KeysIn(mUp, design) &&
    (forall k :: 0 <= k < c ==> Extends(tried[k], mapping)) &&
    (c > 0 ==> Extends(mUp, mapping))
  }

  /** One more candidate, whose search returned `g` and `m`, joins the scan. */
  lemma TriedStep(design: Graph, mapping: Mapping, tried: seq<Mapping>, c: nat, gUp: Graph, mUp: Mapping,
                  g: Graph, m: Mapping)
    requires TriedSoFar(design, mapping, tried, c, gUp, mUp)
    requires Usable(g) && KeysIn(m, design) && Extends(m, mapping)
    ensures TriedSoFar(design, mapping, tried + [m], c + 1,
                       if |m| >= |mUp| then g else gUp, if |m| >= |mUp| then m else mUp)
  {
    assert (tried + [m])[..c] == tried;
  }

  /** What the settle loop of `run_replace_greedy` and `run_replace` ends with. */
  datatype Settled = Settled(graph: Graph, mapping: Mapping, best: Option<Decision>, choice: Option<Choice>, lifts: seq<Lift>)

  /** `run_replace`'s `biggest_graph` and `biggest_map` after the mappings `seen` since `init`. */
  ghost predicate Biggest(design: Graph, init: Mapping, seen: seq<Mapping>, bigG: Graph, bigM: Mapping)
  {
    bigM == Largest(init, seen) && Usable(bigG) && KeysIn(bigM, design)
  }

  /** `biggest_graph` and `biggest_map` of `find_template` and `search` after the mappings `seen`. */
  ghost predicate Leading(design: Graph, seen: seq<Mapping>, bigG: Option<Graph>, bigM: Mapping)
  {
    bigM == Largest(map[], seen) && (bigG.Some? <==> |bigM| > 0) &&
    (bigG.Some? ==> Usable(bigG.value) && KeysIn(bigM, design))
  }

  /**
   * Mapping `m` grew from the seed pair (`o`, `anchor`) of `find_template`:
   * design vertex `o` has the reference of template vertex `anchor`,
   * passes `compare_ref` against it, and is still mapped to it.
   */
  ghost predicate SeededBy(design: Graph, gt: Graph, anchor: nat, m: Mapping, o: nat)
  {
    anchor < |gt.vs| && o < |design.vs| && design.vs[o].ref == gt.vs[anchor].ref &&
    CompareRef(design.vs[o], gt.vs[anchor]) && o in m && m[o] == anchor
  }

  /** What one span adds to `seen`: a mapping per seed of `origins`, the seeds in design order. */
  ghost predicate SeedsFrom(design: Graph, gt: Graph, anchor: nat, seen: seq<Mapping>, seen': seq<Mapping>,
                            origins: seq<nat>)
  {
    |seen'| == |seen| + |origins| && seen'[..|seen|] == seen &&
    (forall k :: 0 <= k < |origins| ==> SeededBy(design, gt, anchor, seen'[|seen| + k], origins[k])) &&
    (forall a, b :: 0 <= a < b < |origins| ==> origins[a] < origins[b])
  }

  /** The seed `seeds[j]`, later than every earlier one, adds its mapping `m`. */
  lemma SeedsStep(design: Graph, gt: Graph, anchor: nat, seen: seq<Mapping>, seen': seq<Mapping>,
                  origins: seq<nat>, seeds: seq<nat>, j: nat, m: Mapping)
    requires SeedsFrom(design, gt, anchor, seen, seen', origins)
    requires j < |seeds| && forall a, b :: 0 <= a < b < |seeds| ==> seeds[a] < seeds[b]
    requires forall x :: x in origins ==> x in seeds[..j]
    requires SeededBy(design, gt, anchor, m, seeds[j])
    ensures SeedsFrom(design, gt, anchor, seen, seen' + [m], origins + [seeds[j]])
    ensures forall x :: x in origins + [seeds[j]] ==> x in seeds[..j + 1]
  {
    assert (seen' + [m])[..|seen|] == seen;
    forall k | 0 <= k < |origins| ensures origins[k] < seeds[j] {
      assert origins[k] in origins;
      var i :| 0 <= i < j && seeds[..j][i] == origins[k];
      assert seeds[i] == origins[k];
    }
    assert seeds[..j + 1] == seeds[..j] + [seeds[j]];
  }

  /** A seed that adds nothing leaves the earlier seeds among the first `j + 1`. */
  lemma SeedsSkip(origins: seq<nat>, seeds: seq<nat>, j: nat)
    requires j < |seeds| && forall x :: x in origins ==> x in seeds[..j]
    ensures forall x :: x in origins ==> x in seeds[..j + 1]
  {
    assert seeds[..j + 1] == seeds[..j] + [seeds[j]];
  }

  /** Mapping `m` grew from seed `o` at the first vertex of span `s` of version `e`, a span the filter keeps. */
  ghost predicate SpanSeeded(design: Graph, e: Entry, s: nat, m: Mapping, o: nat)
  {
    SpansIn(e) && s < |e.span| && 0 < |e.span[s].indices| && Kept(e.graph, e.span[s]) &&
    SeededBy(design, e.graph, e.span[s].indices[0], m, o)
  }

  /** Mapping `m` grew from a seed at the first vertex of some kept span of version `e`. */
  ghost predicate Anchored(design: Graph, e: Entry, m: Mapping)
  {
    exists s: nat, o: nat :: SpanSeeded(design, e, s, m, o)
  }

  /**
   * `find_template` for version `e` once the spans before `k` are done:
   * mapping `seen[i]` came from span `spanOf[i]` and seed `origins[i]`,
   * the spans in order, and every kept span so far has a first vertex.
   */
  ghost predicate TemplateSoFar(design: Graph, e: Entry, k: nat, seen: seq<Mapping>, spanOf: seq<nat>,
                                origins: seq<nat>)
  {
    SpansIn(e) && k <= |e.span| && |spanOf| == |seen| && |origins| == |seen| &&
    (forall i :: 0 <= i < |seen| ==> spanOf[i] < k && SpanSeeded(design, e, spanOf[i], seen[i], origins[i])) &&
    (forall a, b :: 0 <= a < b < |seen| ==> spanOf[a] <= spanOf[b]) &&
    (forall t :: 0 <= t < k && Kept(e.graph, e.span[t]) ==> 0 < |e.span[t].indices|)
  }

  /** Kept span `k` adds the mappings its seeds grew. */
  lemma TemplateStep(design: Graph, e: Entry, k: nat, seen: seq<Mapping>, spanOf: seq<nat>, origins: seq<nat>,
                     seen': seq<Mapping>, more: seq<nat>)
    requires TemplateSoFar(design, e, k, seen, spanOf, origins)
    requires k < |e.span| && 0 < |e.span[k].indices| && Kept(e.graph, e.span[k])
    requires SeedsFrom(design, e.graph, e.span[k].indices[0], seen, seen', more)
    ensures TemplateSoFar(design, e, k + 1, seen', spanOf + seq(|more|, _ => k), origins + more)
  {
    var spanOf', origins' := spanOf + seq(|more|, _ => k), origins + more;
    forall i | 0 <= i < |seen'|
      ensures spanOf'[i] < k + 1 && SpanSeeded(design, e, spanOf'[i], seen'[i], origins'[i])
    {
      if i < |seen| {
        assert seen'[i] == seen'[..|seen|][i];
      } else {
        assert SeededBy(design, e.graph, e.span[k].indices[0], seen'[|seen| + (i - |seen|)], more[i - |seen|]);
      }
    }
  }

  /** A span the filter drops adds nothing. */
  lemma TemplateSkip(design: Graph, e: Entry, k: nat, seen: seq<Mapping>, spanOf: seq<nat>, origins: seq<nat>)
    requires TemplateSoFar(design, e, k, seen, spanOf, origins)
    requires k < |e.span| && !Kept(e.graph, e.span[k])
    ensures TemplateSoFar(design, e, k + 1, seen, spanOf, origins)
  {
  }

  /** The first largest of the mappings a `find_template` met is empty or grew from a kept span's seed. */
  lemma {:induction false} LargestAnchored(design: Graph, e: Entry, k: nat, seen: seq<Mapping>, spanOf: seq<nat>,
                                           origins: seq<nat>)
    requires TemplateSoFar(design, e, k, seen, spanOf, origins)
    ensures |Largest(map[], seen)| == 0 || Anchored(design, e, Largest(map[], seen))
  {
    LargestIsFirstMax(map[], seen);
    var r := Largest(map[], seen);
    if |r| > 0 {
      var i :| 0 <= i < |seen| && r == seen[i];
      assert SpanSeeded(design, e, spanOf[i], r, origins[i]);
    }
  }

  /**
   * `search` after the versions `visited`: each of the library, none
   * twice, each paired with what its `find_template` returned, empty or
   * grown from a kept span's seed.
   */
  ghost predicate Visited(design: Graph, catalog: map<string, seq<Entry>>, visited: seq<(string, nat)>,
                          seen: seq<Mapping>)
  {
    |visited| == |seen| &&
    (forall k :: 0 <= k < |visited| ==>
      visited[k].0 in catalog && visited[k].1 < |catalog[visited[k].0]| &&
      (|seen[k]| == 0 || Anchored(design, catalog[visited[k].0][visited[k].1], seen[k]))) &&
    (forall a, b :: 0 <= a < b < |visited| ==> visited[a] != visited[b])
  }

  /** The first largest of the mappings `search` met is empty or grew from a kept span's seed of a visited version. */
  lemma {:induction false} LargestVisited(design: Graph, catalog: map<string, seq<Entry>>,
                                          visited: seq<(string, nat)>, seen: seq<Mapping>)
    requires Visited(design, catalog, visited, seen)
    ensures |Largest(map[], seen)| == 0 ||
      exists k :: 0 <= k < |visited| && Anchored(design, catalog[visited[k].0][visited[k].1], Largest(map[], seen))
  {
    LargestIsFirstMax(map[], seen);
    var r := Largest(map[], seen);
    if |r| > 0 {
      var i :| 0 <= i < |seen| && r == seen[i];
      assert Anchored(design, catalog[visited[i].0][visited[i].1], r);
    }
  }

  /** `search` has visited every version of the references outside `refs`, and none of those inside. */
  ghost predicate Covered(catalog: map<string, seq<Entry>>, refs: set<string>, visited: seq<(string, nat)>)
  {
    (forall k :: 0 <= k < |visited| ==> visited[k].0 !in refs) &&
    (forall r, v :: r in catalog && r !in refs && 0 <= v < |catalog[r]| ==> (r, v) in visited)
  }

  /** `search` within reference `ref`, taken out of `refs`, with the versions before `ver` visited. */
  ghost predicate CoveredUpTo(catalog: map<string, seq<Entry>>, refs: set<string>, ref: string, ver: nat,
                         visited: seq<(string, nat)>)
  {
    ref !in refs &&
    (forall k :: 0 <= k < |visited| ==> visited[k].0 !in refs && (visited[k].0 == ref ==> visited[k].1 < ver)) &&
    (forall r, v :: r in catalog && r !in refs && r != ref && 0 <= v < |catalog[r]| ==> (r, v) in visited) &&
    (forall v :: 0 <= v < ver ==> (ref, v) in visited)
  }

  /** Taking `ref` out of `refs` starts it with no version visited. */
  lemma StartRef(catalog: map<string, seq<Entry>>, refs: set<string>, ref: string, visited: seq<(string, nat)>)
    requires Covered(catalog, refs, visited) && ref in refs
    ensures CoveredUpTo(catalog, refs - {ref}, ref, 0, visited)
  {
  }

  /** Once every version of `ref` is visited, the references outside `refs` are done. */
  lemma EndRef(catalog: map<string, seq<Entry>>, refs: set<string>, ref: string, visited: seq<(string, nat)>)
    requires ref in catalog && CoveredUpTo(catalog, refs, ref, |catalog[ref]|, visited)
    ensures Covered(catalog, refs, visited)
  {
  }

  /** Version `ver` of `ref`, not visited before, joins `visited` with what its `find_template` returned. */
  lemma VisitStep(design: Graph, catalog: map<string, seq<Entry>>, visited: seq<(string, nat)>, seen: seq<Mapping>,
                  refs: set<string>, ref: string, ver: nat, m: Mapping)
    requires Visited(design, catalog, visited, seen) && CoveredUpTo(catalog, refs, ref, ver, visited)
    requires ref in catalog && ver < |catalog[ref]|
    requires |m| == 0 || Anchored(design, catalog[ref][ver], m)
    ensures Visited(design, catalog, visited + [(ref, ver)], seen + [m])
    ensures CoveredUpTo(catalog, refs, ref, ver + 1, visited + [(ref, ver)])
  {
    var visited' := visited + [(ref, ver)];
    forall a, b | 0 <= a < b < |visited'| ensures visited'[a] != visited'[b] {
      if b == |visited| {
        assert visited'[a] == visited[a];
      }
    }
    forall r, v | r in catalog && r !in refs && r != ref && 0 <= v < |catalog[r]| ensures (r, v) in visited' {
      assert (r, v) in visited;
    }
    forall v | 0 <= v < ver + 1 ensures (ref, v) in visited' {
      if v < ver {
        assert (ref, v) in visited;
      }
    }
  }

  /**
   * The state `run_replace` carries between rounds: the template and
   * mapping it works on, and the first largest of the mappings `seen`
   * since `mapping`, the first of which extends `mapping`.
   */
  ghost predicate Replacing(design: Graph, mapping: Mapping, seen: seq<Mapping>, g: Graph, m: Mapping,
                            bigG: Graph, bigM: Mapping)
  {
    Usable(g) && KeysIn(m, design) && KeysIn(mapping, design) && Biggest(design, mapping, seen, bigG, bigM) &&
    if |seen| == 0 then m == mapping else Extends(seen[0], mapping)
  }

  /** `seen` only grows at its end, so its first mapping, once it extends `mapping`, stays so. */
  lemma FirstStays(mapping: Mapping, first: Mapping, seen: seq<Mapping>, seen': seq<Mapping>)
    requires |seen| <= |seen'| && seen'[..|seen|] == seen && 0 < |seen'|
    requires if |seen| == 0 then seen'[0] == first else seen[0] == first
    requires Extends(first, mapping)
    ensures Extends(seen'[0], mapping)
  {
    if |seen| > 0 {
      assert seen'[0] == seen'[..|seen|][0];
    }
  }

  /**
   * How many more levels `run_replace_greedy` opens below `depth`: it
   * returns at once from depth 2, so its recursion through
   * `recurse_ascend` is at most two levels deep.
   */
  function Levels(depth: nat): nat
  {
    if depth >= 2 then 0 else 2 - depth
  }

  /** Recording the pair of version `ver` and one of its vertices with reference `root`. */
  lemma PairsAtAppend(catalog: map<string, seq<Entry>>, ref: string, pairs: seq<(nat, nat)>, root: string,
                      ver: nat, top: nat)
    requires ref in catalog && PairsAt(catalog, ref, pairs, root) && forall k :: 0 <= k < |pairs| ==> pairs[k].0 == ver
    requires ver < |catalog[ref]| && top < |catalog[ref][ver].graph.vs| && catalog[ref][ver].graph.vs[top].ref == root
    ensures PairsAt(catalog, ref, pairs + [(ver, top)], root)
    ensures forall k :: 0 <= k < |pairs| + 1 ==> (pairs + [(ver, top)])[k].0 == ver
  {
  }

  /**
   * The lifts `ascend` has collected while `refs` are still to be tried:
   * each names a containing reference of `root`, already tried, with its
   * passing pairs, and no reference twice.
   */
  predicate Lifted(catalog: map<string, seq<Entry>>, used: map<string, set<string>>, root: string,
                   refs: set<string>, lifts: seq<Lift>)
  {
    (forall i :: 0 <= i < |lifts| ==> LiftIn(catalog, lifts[i], root)) &&
    (forall i :: 0 <= i < |lifts| ==> lifts[i].ref in UsedBy(used, root) && lifts[i].ref !in refs) &&
    (forall i, j :: 0 <= i < j < |lifts| ==> lifts[i].ref != lifts[j].ref)
  }

  /** Recording the passing pairs of `ref`, taken out of `refs`. */
  lemma LiftAppend(catalog: map<string, seq<Entry>>, used: map<string, set<string>>, root: string,
                   refs: set<string>, lifts: seq<Lift>, ref: string, matches: seq<(nat, nat)>)
    requires Lifted(catalog, used, root, refs, lifts) && ref in refs && refs <= UsedBy(used, root)
    requires ref in catalog && |matches| > 0 && PairsAt(catalog, ref, matches, root)
    ensures Lifted(catalog, used, root, refs - {ref}, lifts + [Lift(ref, matches)])
    ensures Flat(lifts + [Lift(ref, matches)]) == Flat(lifts) + matches
  {
    assert (lifts + [Lift(ref, matches)])[..|lifts|] == lifts;
  }

  /**
   * What `ascend` keeps of its first passing replacement, once there is
   * one: a usable template larger than `gt` and a mapping grown from
   * `passMapping`.
   */
  ghost predicate FirstPass(design: Graph, gt: Graph, passMapping: Mapping, passNum: nat, passGraph: Graph, passMap: Mapping)
  {
    passNum >= 1 ==> (Usable(passGraph) && |gt.vs| < |passGraph.vs| && KeysIn(passMap, design) &&
      Extends(passMap, passMapping) && (Injective(passMapping) ==> Injective(passMap)))
  }

  /** The references `used_list` records as containing `r`. */
  function UsedBy(used: map<string, set<string>>, r: string): set<string>
  {
    if r in used then used[r] else {}
  }

  /** A failed step passed on unchanged to a caller with another result type. */
  function Propagate<T, U>(o: Outcome<T>): (r: Outcome<U>)
    requires !o.Ok?
    ensures !r.Ok? && (r.Raised? <==> o.Raised?)
  {
    if o.Raised? then Raised else OutOfFuel
  }

  /** The tried versions that did not pass. */
  function Rejected(tried: seq<nat>, passing: seq<nat>): set<nat>
  {
    set x | x in tried && x !in passing
  }

  /** `limit_vertices += new_vertex_list`, where `None` starts an empty list. */
  function Widened(limit: Option<seq<int>>, more: seq<nat>): (r: Option<seq<int>>)
    ensures r.Some? && forall x :: x in more ==> x in r.value
  {
    Some((if limit.Some? then limit.value else []) + more)
  }

  /** A `decision_list` whose cell, reference and versions exist. */
  predicate ChoiceIn(catalog: map<string, seq<Entry>>, c: Option<Choice>, n: nat)
  {
    c.Some? ==> (c.value.v < n && c.value.ref in catalog &&
      forall i :: 0 <= i < |c.value.versions| ==> c.value.versions[i] < |catalog[c.value.ref]|)
  }

  /**
   * `limit_vertices` after the passes of `descend` grew the template from
   * `from` to `to` vertices: every added vertex joins the limit.
   */
  function LimitAfter(limit: Option<seq<int>>, from: nat, to: nat): Option<seq<int>>
    requires from <= to
  {
    if from == to then limit else Widened(limit, Range(from, to - from))
  }

  /** Opening up a template that adds `count > 0` vertices widens the limit by exactly those. */
  lemma LimitGrows(limit: Option<seq<int>>, from: nat, to: nat, count: nat)
    requires from <= to && count > 0
    ensures Widened(LimitAfter(limit, from, to), Range(to, count)) == LimitAfter(limit, from, to + count)
  {
    var base: seq<int> := if limit.Some? then limit.value else [];
    if from < to {
      assert Range(from, to - from) + Range(to, count) == Range(from, to + count - from);
      assert base + Range(from, to - from) + Range(to, count) == base + Range(from, to + count - from);
    }
  }

  /**
   * A cell of a `descend` pass that applied nothing, as the failure cache
   * records it: the cell's reference has templates, the versions left
   * outside the cache all fit the cell's ports, and they are not exactly
   * one.
   */
  ghost predicate QuietAt(catalog: map<string, seq<Entry>>, failed: map<nat, set<nat>>, g: Graph, v: nat)
  {
    v < |g.vs| && g.vs[v].ref in catalog &&
    var open := Untried(|catalog[g.vs[v].ref]|, FailedAt(failed, v));
    |open| != 1 && forall x :: x in open ==> PortsFit(g, v, catalog[g.vs[v].ref][x].graph)
  }

  /** Every cell of `cells` is quiet. */
  ghost predicate Quiet(catalog: map<string, seq<Entry>>, failed: map<nat, set<nat>>, g: Graph, cells: seq<nat>)
  {
    forall j :: 0 <= j < |cells| ==> QuietAt(catalog, failed, g, cells[j])
  }

  /** Two ascending sequences with the same elements are the same sequence. */
  lemma {:induction false} AscendingSame(a: seq<nat>, b: seq<nat>)
    requires forall i, j :: 0 <= i < j < |a| ==> a[i] < a[j]
    requires forall i, j :: 0 <= i < j < |b| ==> b[i] < b[j]
    requires forall x :: x in a <==> x in b
    ensures a == b
  {
    assert |a| > 0 ==> a[0] in a;
    assert |b| > 0 ==> b[0] in b;
    if |a| > 0 && |b| > 0 {
      assert a[0] == b[0] by {
        assert b[0] in a && a[0] in b;
      }
      forall x ensures x in a[1..] <==> x in b[1..] {
        if x in a[1..] {
          var i :| 1 <= i < |a| && a[i] == x;
          assert a[i] in a;
          var k :| 0 <= k < |b| && b[k] == x;
          assert k != 0 && b[1..][k - 1] == x;
        }
        if x in b[1..] {
          var i :| 1 <= i < |b| && b[i] == x;
          assert b[i] in b;
          var k :| 0 <= k < |a| && a[k] == x;
          assert k != 0 && a[1..][k - 1] == x;
        }
      }
      AscendingSame(a[1..], b[1..]);
    }
  }

  /**
   * A cell where other than exactly one version passed becomes quiet, and
   * the earlier cells of the pass stay quiet: the cache changed only at
   * this cell, and what it leaves open there is what passed.
   */
  lemma QuietStep(catalog: map<string, seq<Entry>>, f0: map<nat, set<nat>>, f1: map<nat, set<nat>>, g: Graph,
                  cells: seq<nat>, i: nat, tried: seq<nat>, passing: seq<nat>)
    requires i < |cells| && forall a, b :: 0 <= a < b < |cells| ==> cells[a] < cells[b]
    requires Quiet(catalog, f0, g, cells[..i])
    requires cells[i] < |g.vs| && g.vs[cells[i]].ref in catalog
    requires tried == Untried(|catalog[g.vs[cells[i]].ref]|, FailedAt(f0, cells[i]))
    requires f1 == f0[cells[i] := FailedAt(f0, cells[i]) + Rejected(tried, passing)]
    requires forall x :: x in passing ==> x in tried && PortsFit(g, cells[i], catalog[g.vs[cells[i]].ref][x].graph)
    requires forall a, b :: 0 <= a < b < |passing| ==> passing[a] < passing[b]
    requires |passing| != 1
    ensures Quiet(catalog, f1, g, cells[..i + 1])
  {
    var v := cells[i];
    var n := |catalog[g.vs[v].ref]|;
    var open := Untried(n, FailedAt(f1, v));
    forall x ensures x in open <==> x in passing {
    }
    AscendingSame(open, passing);
    var done := cells[..i + 1];
    forall j | 0 <= j < |done| ensures QuietAt(catalog, f1, g, done[j]) {
      if j < i {
        assert cells[..i][j] == cells[j] && cells[j] != v;
        assert FailedAt(f1, cells[j]) == FailedAt(f0, cells[j]);
      }
    }
  }

  /**
   * What a `descend` pass carries from cell to cell once `i` of `cells`
   * are done: a usable template at least as large as the pass's start, a
   * mapping that extends the pass's own, decisions that exist, the vertex
   * limit widened by every added vertex, and, while nothing was applied,
   * the start template unchanged with every done cell quiet.
   */
  ghost predicate Carried(catalog: map<string, seq<Entry>>, failed: map<nat, set<nat>>, m: Mapping,
                          gt: Graph, passMapping: Mapping, limit: Option<seq<int>>, start: Graph,
                          cells: seq<nat>, i: nat, p: Pass)
  {
    Usable(p.gt) && |gt.vs| <= |start.vs| <= |p.gt.vs| &&
    Extends(m, passMapping) && (Injective(passMapping) ==> Injective(m)) &&
    DecisionIn(catalog, p.best, |p.gt.vs|) && ChoiceIn(catalog, p.choice, |p.gt.vs|) &&
    p.limit == LimitAfter(limit, |gt.vs|, |p.gt.vs|) &&
    i <= |cells| && (!p.updated ==> p.gt == start && Quiet(catalog, failed, start, cells[..i]))
  }

  /** A concluded cell `cells[i]` moves what the pass carries on to `i + 1`. */
  lemma CarriedStep(catalog: map<string, seq<Entry>>, design: Graph, f0: map<nat, set<nat>>, f1: map<nat, set<nat>>,
                    m0: Mapping, m1: Mapping, gt: Graph, passMapping: Mapping, limit: Option<seq<int>>,
                    start: Graph, cells: seq<nat>, i: nat, p: Pass, tried: seq<nat>, passing: seq<nat>, q: Pass)
    requires Carried(catalog, f0, m0, gt, passMapping, limit, start, cells, i, p)
    requires i < |cells| && forall a, b :: 0 <= a < b < |cells| ==> cells[a] < cells[b]
    requires cells[i] < |start.vs| && p.gt.vs[cells[i]].ref in catalog
    requires tried == Untried(|catalog[p.gt.vs[cells[i]].ref]|, FailedAt(f0, cells[i]))
    requires f1 == f0[cells[i] := FailedAt(f0, cells[i]) + Rejected(tried, passing)]
    requires forall x :: x in passing ==> x in tried && PortsFit(p.gt, cells[i], catalog[p.gt.vs[cells[i]].ref][x].graph)
    requires forall a, b :: 0 <= a < b < |passing| ==> passing[a] < passing[b]
    requires Concluded(catalog, design, cells[i], p.gt.vs[cells[i]].ref, p, tried, passing, q, m0, m1)
    ensures Carried(catalog, f1, m1, gt, passMapping, limit, start, cells, i + 1, q)
  {
    var v := cells[i];
    var ref := p.gt.vs[v].ref;
    ConcludedKeeps(catalog, design, v, ref, p, tried, passing, q, m0, m1, passMapping);
    if |passing| == 1 {
      LimitGrows(limit, |gt.vs|, |p.gt.vs|, |catalog[ref][passing[0]].graph.vs|);
    } else if !q.updated {
      QuietStep(catalog, f0, f1, start, cells, i, tried, passing);
    }
  }

  /** A `best_decision` whose cell, reference and version exist. */
  predicate DecisionIn(catalog: map<string, seq<Entry>>, d: Option<Decision>, n: nat)
  {
    d.Some? ==> d.value.v < n && d.value.ref in catalog && d.value.version < |catalog[d.value.ref]|
  }

  /**
   * The search state of `search_lib.py`: the design and the template
   * library (fixed once loaded), `descend`'s failure cache, and the
   * `g_temp` and `return_mapping` that `descend` leaves behind for later
   * `descend_parallel` calls.
   */
  class Searcher {
    const design: Graph
    const catalog: map<string, seq<Entry>>
    const used: map<string, set<string>>
    var failed: map<nat, set<nat>>
    var gTemp: Option<Graph>
    var returnMapping: Mapping

    ghost predicate Valid()
      reads this
    {
      LibraryOk(catalog) && UsedOk(catalog, used) &&
      (gTemp.Some? ==> Usable(gTemp.value)) && KeysIn(returnMapping, design)
    }

    constructor(design: Graph, catalog: map<string, seq<Entry>>, used: map<string, set<string>>)
      requires LibraryOk(catalog) && UsedOk(catalog, used)
      ensures Valid() && failed == map[] && gTemp == None
      ensures this.design == design && this.catalog == catalog && this.used == used
    {
      this.design := design;
      this.catalog := catalog;
      this.used := used;
      failed := map[];
      gTemp := None;
      returnMapping := map[];
    }

    /**
     * `descend_parallel(ver)`: template version `ver` of `ref` opened up
     * at vertex `v` of `g_temp`, then `update_map` from `return_mapping`;
     * `None` is the 0 the source returns on either failure.
     */
    method DescendParallel(v: nat, ref: string, ver: nat) returns (res: Option<Applied>)
      requires Valid() && gTemp.Some? && v < |gTemp.value.vs|
      requires ref in catalog && ver < |catalog[ref]|
      ensures !PortsFit(gTemp.value, v, catalog[ref][ver].graph) ==> res.None?
      ensures res.Some? ==> Grown(gTemp.value, catalog[ref][ver].graph, v, returnMapping, res.value, design)
    {
      var hier := catalog[ref][ver].graph;
      var gNew, ok, newVertices := ReplaceHierCell(gTemp.value, hier, v, Direction.Descend);
      if !ok {
        return None;
      }
      var m := UpdateMap(design, gNew, returnMapping, newVertices);
      if m.None? {
        return None;
      }
      KeysGrow(m.value, returnMapping, design, gNew);
      return Some(Applied(gNew, m.value, newVertices));
    }

    /** `pool.map(descend_parallel, versions)`, one version after another. */
    method RunVersions(v: nat, ref: string, versions: seq<nat>) returns (results: seq<Option<Applied>>)
      requires Valid() && gTemp.Some? && v < |gTemp.value.vs| && ref in catalog
      requires forall i :: 0 <= i < |versions| ==> versions[i] < |catalog[ref]|
      ensures |results| == |versions|
      ensures forall i :: 0 <= i < |versions| && !PortsFit(gTemp.value, v, catalog[ref][versions[i]].graph) ==>
        results[i].None?
      ensures forall i :: 0 <= i < |versions| && results[i].Some? ==>
        Grown(gTemp.value, catalog[ref][versions[i]].graph, v, returnMapping, results[i].value, design)
    {
      results := [];
      for i := 0 to |versions|
        invariant |results| == i
        invariant forall j :: 0 <= j < i && !PortsFit(gTemp.value, v, catalog[ref][versions[j]].graph) ==>
          results[j].None?
        invariant forall j :: 0 <= j < i && results[j].Some? ==>
          Grown(gTemp.value, catalog[ref][versions[j]].graph, v, returnMapping, results[j].value, design)
      {
        var r := DescendParallel(v, ref, versions[i]);
        results := results + [r];
      }
    }
  
    /**
     * The loop over the workers' reports in `descend`: the passing
     * versions in order with the sum of their primitive counts, and every
     * failing version added to the failure cache of `v`.
     */
    method Tally(v: nat, ref: string, versions: seq<nat>, results: seq<Option<Applied>>, ghost g: Graph)
      returns (matches: seq<nat>, total: nat)
      requires ref in catalog && v in failed && |versions| == |results|
      requires forall i :: 0 <= i < |versions| ==> versions[i] < |catalog[ref]|
      requires forall i, j :: 0 <= i < j < |versions| ==> versions[i] < versions[j]
      requires forall i :: 0 <= i < |versions| && results[i].Some? ==> PortsFit(g, v, catalog[ref][versions[i]].graph)
      modifies this
      ensures failed == old(failed)[v := old(failed)[v] + Rejected(versions, matches)]
      ensures forall x :: x in matches ==> x in versions && PortsFit(g, v, catalog[ref][x].graph)
      ensures forall k :: 0 <= k < |matches| ==> matches[k] < |catalog[ref]|
      ensures forall a, b :: 0 <= a < b < |matches| ==> matches[a] < matches[b]
      ensures total == CountSum(catalog[ref], matches)
      ensures gTemp == old(gTemp) && returnMapping == old(returnMapping)
    {
      matches, total := [], 0;
      ghost var f0, base := failed, failed[v];
      assert base + Rejected(versions[..0], matches) == base;
      assert failed[v := base] == failed;
      for i := 0 to |results|
        invariant Tallying(f0, v, ref, versions, g, i, matches, total, base)
        invariant gTemp == old(gTemp) && returnMapping == old(returnMapping)
      {
        matches, total := TallyOne(f0, v, ref, versions, results, g, i, matches, total, base);
      }
      assert versions[..|results|] == versions;
    }

    /**
     * The state of the loop of `Tally` after `i` reports: the matches so
     * far, their primitive count, and every failure so far in the cache.
     */
    ghost predicate Tallying(f0: map<nat, set<nat>>, v: nat, ref: string, versions: seq<nat>, g: Graph,
                             i: nat, matches: seq<nat>, total: nat, base: set<nat>)
      reads this
    {
      i <= |versions| && failed == f0[v := base + Rejected(versions[..i], matches)] &&
      MatchesSoFar(catalog, v, ref, versions, g, i, matches, total)
    }

    /** One report of the loop of `Tally`: a pass joins the matches, a failure the cache. */
    method TallyOne(ghost f0: map<nat, set<nat>>, v: nat, ref: string, versions: seq<nat>,
                    results: seq<Option<Applied>>, ghost g: Graph, i: nat, matches: seq<nat>, total: nat,
                    ghost base: set<nat>)
      returns (matches': seq<nat>, total': nat)
      requires i < |versions| == |results| && Tallying(f0, v, ref, versions, g, i, matches, total, base)
      requires forall j :: 0 <= j < |versions| ==> versions[j] < |catalog[ref]|
      requires forall a, b :: 0 <= a < b < |versions| ==> versions[a] < versions[b]
      requires forall j :: 0 <= j < |versions| && results[j].Some? ==> PortsFit(g, v, catalog[ref][versions[j]].graph)
      modifies this
      ensures Tallying(f0, v, ref, versions, g, i + 1, matches', total', base)
      ensures gTemp == old(gTemp) && returnMapping == old(returnMapping)
    {
      TallyStep(versions, i);
      matches', total' := matches, total;
      if Score(results[i]) > 0 {
        RejectedPass(versions, i, matches);
        MatchesPass(catalog, v, ref, versions, g, i, matches, total);
        total' := total + catalog[ref][versions[i]].primitiveCount;
        matches' := matches + [versions[i]];
      } else {
        RejectedFail(versions, i, matches);
        MatchesFail(catalog, v, ref, versions, g, i, matches, total);
        assert failed[v] + {versions[i]} == base + Rejected(versions[..i + 1], matches);
        failed := failed[v := failed[v] + {versions[i]}];
      }
    }

    /**
     * One hierarchical cell `v` of a `descend` pass. The versions not yet
     * known to fail at `v` are tried; those that fail join the failure
     * cache. The cell becomes the pass's `decision_list` when the average
     * primitive count of its passing versions is at least the best so far.
     * Exactly one passing version is applied to the template; several
     * update `best_decision`; none clears `descend_pass_flag`. A cell whose
     * reference has no templates raises, as the source's `KeyError`.
     */
    method DescendVertex(v: nat, p: Pass) returns (out: Outcome<Pass>, ghost tried: seq<nat>, ghost passing: seq<nat>)
      requires Valid() && Usable(p.gt) && v < |p.gt.vs|
      modifies this
      ensures Valid() && CacheGrows(old(failed), failed)
      ensures out.Ok? ==> p.gt.vs[v].ref in catalog
      ensures out.Ok? ==> tried == Untried(|catalog[p.gt.vs[v].ref]|, FailedAt(old(failed), v))
      ensures out.Ok? ==> failed == old(failed)[v := FailedAt(old(failed), v) + Rejected(tried, passing)]
      ensures out.Ok? ==> forall x :: x in passing ==> x in tried && PortsFit(p.gt, v, catalog[p.gt.vs[v].ref][x].graph)
      ensures out.Ok? ==> forall a, b :: 0 <= a < b < |passing| ==> passing[a] < passing[b]
      ensures out.Ok? ==>
        Concluded(catalog, design, v, p.gt.vs[v].ref, p, tried, passing, out.value, old(returnMapping), returnMapping)
    {
      var ref := p.gt.vs[v].ref;
      ghost var m0, f0 := returnMapping, failed;
      failed := failed[v := FailedAt(failed, v)];
      if ref !in catalog {
        return Raised, [], [];
      }
      gTemp := Some(p.gt);
      var versions := Untried(|catalog[ref]|, failed[v]);
      assert forall i :: 0 <= i < |versions| ==> versions[i] in versions;
      var results := RunVersions(v, ref, versions);
      tried := versions;
      var matches, total := Tally(v, ref, versions, results, p.gt);
      Overwrite(f0, v, FailedAt(f0, v), FailedAt(f0, v) + Rejected(versions, matches));
      passing := matches;
      out := Conclude(v, ref, p, versions, results, matches, total, m0);
    }

    /**
     * The end of one cell of `descend`, once the reports are tallied: the
     * average rule for `decision_list`, then the rule on how many versions
     * passed.
     */
    method Conclude(v: nat, ref: string, p: Pass, versions: seq<nat>, results: seq<Option<Applied>>,
                    matches: seq<nat>, total: nat, ghost m0: Mapping) returns (out: Outcome<Pass>)
      requires Valid() && Usable(p.gt) && v < |p.gt.vs| && gTemp == Some(p.gt) && returnMapping == m0
      requires ref in catalog && |versions| == |results|
      requires forall k :: 0 <= k < |matches| ==> matches[k] < |catalog[ref]|
      requires forall x :: x in matches ==> x in versions
      requires total == CountSum(catalog[ref], matches)
      modifies this
      ensures Valid() && failed == old(failed)
      ensures out.Ok? ==>
        Concluded(catalog, design, v, ref, p, versions, matches, out.value, m0, returnMapping)
    {
      var average := if |matches| != 0 then total as real / |matches| as real else 0.0;
      var q := p;
      if average >= p.bestAverage {
        q := q.(bestAverage := average, choice := Some(Choice(v, ref, matches)));
      }
      if |matches| == 1 {
        var r := DescendParallel(v, ref, matches[0]);
        if r.None? {
          return Raised;
        }
        returnMapping := r.value.mapping;
        q := q.(gt := r.value.graph, limit := Widened(q.limit, r.value.newVertices), updated := true);
      } else if |matches| > 1 {
        var b, length := PickBest(v, ref, versions, results, q.best, q.bestLength);
        q := q.(best := b, bestLength := length);
      } else {
        q := q.(passFlag := false);
      }
      out := Ok(q);
    }
  
    /**
     * `descend`: passes over the spanning hierarchical cells of the
     * template, seen from the mapping it was given and the vertices added
     * so far, until a whole pass applies nothing. Returns the template, the
     * mapping it leaves in `return_mapping`, `best_decision`,
     * `descend_pass_flag` and the last pass's `decision_list`. The last
     * pass, over `lastCells`, applied nothing: its cells are the spanning
     * cells of the returned template, seen from `passMapping` or the
     * limit widened by every vertex the passes added, and at each of them
     * the failure cache leaves open not exactly one version, all fitting.
     */
    method Descend(gt: Graph, passMapping: Mapping, limit: Option<seq<int>>, fuel: nat)
      returns (out: Outcome<Descent>, ghost lastCells: seq<nat>)
      requires Valid() && Usable(gt) && KeysIn(passMapping, design)
      modifies this
      ensures Valid() && CacheGrows(old(failed), failed)
      ensures out.Ok? ==> Usable(out.value.graph) && |gt.vs| <= |out.value.graph.vs|
      ensures out.Ok? ==> out.value.mapping == returnMapping && Extends(returnMapping, passMapping)
      ensures out.Ok? && Injective(passMapping) ==> Injective(returnMapping)
      ensures out.Ok? ==> ChoiceIn(catalog, out.value.choice, |out.value.graph.vs|)
      ensures out.Ok? ==> DecisionIn(catalog, out.value.best, |out.value.graph.vs|)
      ensures out.Ok? ==> forall x: nat :: x in lastCells <==>
        Spanning(out.value.graph, Seeds(passMapping, LimitAfter(limit, |gt.vs|, |out.value.graph.vs|)), x)
      ensures out.Ok? ==> Quiet(catalog, failed, out.value.graph, lastCells)
    {
      returnMapping := passMapping;
      lastCells := [];
      var p := Pass(gt, limit, None, 0, 0.0, true, None, false);
      var steps := fuel;
      while true
        invariant Valid() && Usable(p.gt) && |gt.vs| <= |p.gt.vs| && CacheGrows(old(failed), failed)
        invariant Extends(returnMapping, passMapping) && (Injective(passMapping) ==> Injective(returnMapping))
        invariant DecisionIn(catalog, p.best, |p.gt.vs|)
        invariant p.limit == LimitAfter(limit, |gt.vs|, |p.gt.vs|)
        decreases steps
      {
        if steps == 0 {
          return OutOfFuel, lastCells;
        }
        steps := steps - 1;
        p := p.(choice := None, updated := false);
        var cells := GetSpanningHierCells(p.gt, passMapping, p.limit);
        var r := DescendPass(gt, passMapping, limit, p, cells);
        if !r.Ok? {
          return Propagate(r), lastCells;
        }
        p := r.value;
        if !p.updated {
          return Ok(Descent(p.gt, returnMapping, p.best, p.passFlag, p.choice)), cells;
        }
      }
    }

    /**
     * One pass of `descend` over `cells`, the spanning cells of the
     * template the pass starts from. A pass that applied nothing leaves
     * the template as it was and every cell quiet.
     */
    method DescendPass(gt: Graph, passMapping: Mapping, limit: Option<seq<int>>, p0: Pass, cells: seq<nat>)
      returns (out: Outcome<Pass>)
      requires Valid() && Usable(p0.gt) && |gt.vs| <= |p0.gt.vs| && !p0.updated && p0.choice.None?
      requires Extends(returnMapping, passMapping) && (Injective(passMapping) ==> Injective(returnMapping))
      requires DecisionIn(catalog, p0.best, |p0.gt.vs|)
      requires p0.limit == LimitAfter(limit, |gt.vs|, |p0.gt.vs|)
      requires forall i, j :: 0 <= i < j < |cells| ==> cells[i] < cells[j]
      requires forall x: nat :: x in cells ==> x < |p0.gt.vs|
      modifies this
      ensures Valid() && CacheGrows(old(failed), failed)
      ensures out.Ok? ==> Usable(out.value.gt) && |p0.gt.vs| <= |out.value.gt.vs|
      ensures out.Ok? ==> Extends(returnMapping, passMapping) && (Injective(passMapping) ==> Injective(returnMapping))
      ensures out.Ok? ==> DecisionIn(catalog, out.value.best, |out.value.gt.vs|)
      ensures out.Ok? ==> ChoiceIn(catalog, out.value.choice, |out.value.gt.vs|)
      ensures out.Ok? ==> out.value.limit == LimitAfter(limit, |gt.vs|, |out.value.gt.vs|)
      ensures out.Ok? && !out.value.updated ==> out.value.gt == p0.gt && Quiet(catalog, failed, p0.gt, cells)
    {
      var p := p0;
      for i := 0 to |cells|
        invariant Valid() && CacheGrows(old(failed), failed)
        invariant Carried(catalog, failed, returnMapping, gt, passMapping, limit, p0.gt, cells, i, p)
      {
        assert cells[i] in cells;
        var r := DescendCell(gt, passMapping, limit, p0.gt, cells, i, p);
        if !r.Ok? {
          return r;
        }
        p := r.value;
      }
      assert cells[..|cells|] == cells;
      return Ok(p);
    }

    /** Cell `i` of a `descend` pass, with what the pass carries between cells. */
    method DescendCell(gt: Graph, passMapping: Mapping, limit: Option<seq<int>>, start: Graph,
                       cells: seq<nat>, i: nat, p0: Pass)
      returns (out: Outcome<Pass>)
      requires Valid() && Carried(catalog, failed, returnMapping, gt, passMapping, limit, start, cells, i, p0)
      requires i < |cells| && forall a, b :: 0 <= a < b < |cells| ==> cells[a] < cells[b]
      requires cells[i] < |start.vs|
      modifies this
      ensures Valid() && CacheGrows(old(failed), failed)
      ensures out.Ok? ==> Carried(catalog, failed, returnMapping, gt, passMapping, limit, start, cells, i + 1, out.value)
    {
      ghost var m0, f0 := returnMapping, failed;
      ghost var tried, passing;
      out, tried, passing := DescendVertex(cells[i], p0);
      if out.Ok? {
        CarriedStep(catalog, design, f0, failed, m0, returnMapping, gt, passMapping, limit, start, cells, i,
                    p0, tried, passing, out.value);
      }
    }

    /**
     * One version `ver` of `ref` inside `ascend`: each vertex of the
     * version with the root's reference is opened up around the template
     * in turn, chaining the replacements; each that passes the port rule
     * and `update_map` is counted and its pair recorded, and the first
     * pass of the whole `ascend` is kept.
     */
    method TryVersion(gt: Graph, passMapping: Mapping, ref: string, ver: nat, root: string,
                      passNum: nat, passGraph: Graph, passMap: Mapping)
      returns (passNum': nat, passGraph': Graph, passMap': Mapping, pairs: seq<(nat, nat)>)
      requires LibraryOk(catalog) && Usable(gt) && KeysIn(passMapping, design)
      requires ref in catalog && ver < |catalog[ref]|
      requires FirstPass(design, gt, passMapping, passNum, passGraph, passMap)
      ensures passNum' == passNum + |pairs|
      ensures FirstPass(design, gt, passMapping, passNum', passGraph', passMap')
      ensures passNum >= 1 ==> passGraph' == passGraph && passMap' == passMap
      ensures PairsAt(catalog, ref, pairs, root)
      ensures forall k :: 0 <= k < |pairs| ==> pairs[k].0 == ver
    {
      passNum', passGraph', passMap', pairs := passNum, passGraph, passMap, [];
      var hier := catalog[ref][ver].graph;
      var gNew := gt;
      var tops := SelectRef(hier, root);
      for t := 0 to |tops|
        invariant Usable(gNew) && |gt.vs| <= |gNew.vs|
        invariant passNum' == passNum + |pairs|
        invariant FirstPass(design, gt, passMapping, passNum', passGraph', passMap')
        invariant passNum >= 1 ==> passGraph' == passGraph && passMap' == passMap
        invariant PairsAt(catalog, ref, pairs, root)
        invariant forall k :: 0 <= k < |pairs| ==> pairs[k].0 == ver
      {
        assert tops[t] in tops;
        assert hier.vs[tops[t]].id == tops[t];
        var ok, added;
        gNew, ok, added := ReplaceHierCell(gNew, hier, tops[t], Direction.Ascend);
        if ok {
          var m := UpdateMap(design, gNew, passMapping, added);
          if m.Some? {
            KeysGrow(m.value, passMapping, design, gNew);
            if passNum' == 0 {
              passGraph', passMap' := gNew, m.value;
            }
            passNum' := passNum' + 1;
            PairsAtAppend(catalog, ref, pairs, root, ver, tops[t]);
            pairs := pairs + [(ver, tops[t])];
          }
        }
      }
    }

    /** Every version of `ref` inside `ascend`, in order, collecting their passing pairs. */
    method TryReference(gt: Graph, passMapping: Mapping, ref: string, root: string,
                        passNum: nat, passGraph: Graph, passMap: Mapping)
      returns (passNum': nat, passGraph': Graph, passMap': Mapping, matches: seq<(nat, nat)>)
      requires LibraryOk(catalog) && Usable(gt) && KeysIn(passMapping, design) && ref in catalog
      requires FirstPass(design, gt, passMapping, passNum, passGraph, passMap)
      ensures passNum' == passNum + |matches|
      ensures FirstPass(design, gt, passMapping, passNum', passGraph', passMap')
      ensures passNum >= 1 ==> passGraph' == passGraph && passMap' == passMap
      ensures PairsAt(catalog, ref, matches, root)
    {
      passNum', passGraph', passMap', matches := passNum, passGraph, passMap, [];
      for ver := 0 to |catalog[ref]|
        invariant passNum' == passNum + |matches|
        invariant FirstPass(design, gt, passMapping, passNum', passGraph', passMap')
        invariant passNum >= 1 ==> passGraph' == passGraph && passMap' == passMap
        invariant PairsAt(catalog, ref, matches, root)
      {
        var pairs;
        passNum', passGraph', passMap', pairs := TryVersion(gt, passMapping, ref, ver, root, passNum', passGraph', passMap');
        matches := matches + pairs;
      }
    }

    /**
     * The state of the loop of `ascend` while `refs` are still to be
     * tried: the pass count is the number of pairs collected, the first
     * pass is kept, and the lifts are as `Lifted` says.
     */
    ghost predicate Ascending(gt: Graph, passMapping: Mapping, root: string, refs: set<string>,
                              passNum: nat, passGraph: Graph, passMap: Mapping, lifts: seq<Lift>)
    {
      refs <= UsedBy(used, root) && passNum == |Flat(lifts)| &&
      FirstPass(design, gt, passMapping, passNum, passGraph, passMap) &&
      Lifted(catalog, used, root, refs, lifts)
    }

    /** One containing reference of the loop of `ascend`, tried and taken out of `refs`. */
    method AscendStep(gt: Graph, passMapping: Mapping, root: string, refs: set<string>,
                      passNum: nat, passGraph: Graph, passMap: Mapping, lifts: seq<Lift>)
      returns (refs': set<string>, passNum': nat, passGraph': Graph, passMap': Mapping, lifts': seq<Lift>)
      requires LibraryOk(catalog) && UsedOk(catalog, used) && Usable(gt) && KeysIn(passMapping, design)
      requires refs != {} && Ascending(gt, passMapping, root, refs, passNum, passGraph, passMap, lifts)
      ensures Ascending(gt, passMapping, root, refs', passNum', passGraph', passMap', lifts')
      ensures |refs'| < |refs|
      ensures passNum >= 1 ==> passGraph' == passGraph && passMap' == passMap
    {
      var ref :| ref in refs;
      var matches;
      passNum', passGraph', passMap', matches := TryReference(gt, passMapping, ref, root, passNum, passGraph, passMap);
      lifts' := if |matches| > 0 then lifts + [Lift(ref, matches)] else lifts;
      refs' := refs - {ref};
      AscendKeeps(gt, passMapping, root, refs, ref, passNum, passGraph, passMap, lifts,
                  passNum', passGraph', passMap', matches);
    }

    /** What one round of `ascend` keeps, whether or not `ref` had passing pairs. */
    lemma AscendKeeps(gt: Graph, passMapping: Mapping, root: string, refs: set<string>, ref: string,
                      passNum: nat, passGraph: Graph, passMap: Mapping, lifts: seq<Lift>,
                      passNum': nat, passGraph': Graph, passMap': Mapping, matches: seq<(nat, nat)>)
      requires Ascending(gt, passMapping, root, refs, passNum, passGraph, passMap, lifts)
      requires ref in refs && ref in catalog && PairsAt(catalog, ref, matches, root)
      requires passNum' == passNum + |matches| && FirstPass(design, gt, passMapping, passNum', passGraph', passMap')
      ensures Ascending(gt, passMapping, root, refs - {ref}, passNum', passGraph', passMap',
                        if |matches| > 0 then lifts + [Lift(ref, matches)] else lifts)
      ensures |refs - {ref}| < |refs|
    {
      if |matches| > 0 {
        LiftAppend(catalog, used, root, refs, lifts, ref, matches);
      }
    }

    /**
     * `ascend`: every template recorded as using the root's reference is
     * tried with each of its vertices of that reference standing for the
     * current template. The template changes only when exactly one
     * replacement passes over all references; every passing (version,
     * position) pair is recorded under its reference.
     */
    method Ascend(gt: Graph, passMapping: Mapping) returns (g': Graph, m': Mapping, lifts: seq<Lift>)
      requires LibraryOk(catalog) && UsedOk(catalog, used) && Usable(gt) && KeysIn(passMapping, design)
      ensures Usable(g') && KeysIn(m', design) && |gt.vs| <= |g'.vs|
      ensures |Flat(lifts)| == 1 ==> (|gt.vs| < |g'.vs| && Extends(m', passMapping) &&
        (Injective(passMapping) ==> Injective(m')))
      ensures |Flat(lifts)| != 1 ==> g' == gt && m' == passMapping
      ensures forall i :: 0 <= i < |lifts| ==> LiftIn(catalog, lifts[i], gt.vs[0].ref)
      ensures forall i :: 0 <= i < |lifts| ==> lifts[i].ref in UsedBy(used, gt.vs[0].ref)
      ensures forall i, j :: 0 <= i < j < |lifts| ==> lifts[i].ref != lifts[j].ref
    {
      var root := gt.vs[0].ref;
      var passNum := 0;
      var passGraph, passMap := gt, passMapping;
      lifts := [];
      var refs := UsedBy(used, root);
      while refs != {}
        invariant Ascending(gt, passMapping, root, refs, passNum, passGraph, passMap, lifts)
        decreases |refs|
      {
        refs, passNum, passGraph, passMap, lifts := AscendStep(gt, passMapping, root, refs, passNum, passGraph, passMap, lifts);
      }
      if passNum == 1 {
        return passGraph, passMap, lifts;
      }
      return gt, passMapping, lifts;
    }
  
    /**
     * The settle loop of `run_replace_greedy` and `run_replace`: descend
     * as far as possible, then ascend, until a round leaves the
     * template's size unchanged. In that last round, which started from
     * the mapping `lastFrom`, the descend's last pass over the spanning
     * cells `lastCells` of the result applied nothing, and neither did the
     * ascend; `return_mapping` is left equal to the mapping returned.
     */
    method Settle(gt: Graph, mapping: Mapping, fuel: nat)
      returns (out: Outcome<Settled>, ghost lastFrom: Mapping, ghost lastCells: seq<nat>)
      requires Valid() && Usable(gt) && KeysIn(mapping, design)
      modifies this
      ensures Valid() && CacheGrows(old(failed), failed)
      ensures out.Ok? ==> Usable(out.value.graph) && KeysIn(out.value.mapping, design)
      ensures out.Ok? ==> |gt.vs| <= |out.value.graph.vs|
      ensures out.Ok? ==> Extends(out.value.mapping, mapping)
      ensures out.Ok? && Injective(mapping) ==> Injective(out.value.mapping)
      ensures out.Ok? ==> DecisionIn(catalog, out.value.best, |out.value.graph.vs|)
      ensures out.Ok? ==> ChoiceIn(catalog, out.value.choice, |out.value.graph.vs|)
      ensures out.Ok? ==> LiftsIn(catalog, out.value.lifts)
      ensures out.Ok? ==> |Flat(out.value.lifts)| != 1
      ensures out.Ok? ==> returnMapping == out.value.mapping
      ensures out.Ok? ==> Extends(out.value.mapping, lastFrom) && Extends(lastFrom, mapping)
      ensures out.Ok? ==> forall x: nat :: x in lastCells <==> Spanning(out.value.graph, lastFrom.Values, x)
      ensures out.Ok? ==> Quiet(catalog, failed, out.value.graph, lastCells)
    {
      var g, m := gt, mapping;
      lastFrom, lastCells := mapping, [];
      var steps := fuel;
      while true
        invariant Valid() && Usable(g) && KeysIn(m, design) && |gt.vs| <= |g.vs| && CacheGrows(old(failed), failed)
        invariant Extends(m, mapping) && (Injective(mapping) ==> Injective(m))
        decreases steps
      {
        if steps == 0 {
          return OutOfFuel, lastFrom, lastCells;
        }
        steps := steps - 1;
        var before := |g.vs|;
        lastFrom := m;
        var d;
        d, lastCells := Descend(g, m, None, fuel);
        if !d.Ok? {
          return Propagate(d), lastFrom, lastCells;
        }
        var lifts;
        g, m, lifts := Ascend(d.value.graph, d.value.mapping);
        if |g.vs| == before {
          return Ok(Settled(g, m, d.value.best, d.value.choice, lifts)), lastFrom, lastCells;
        }
      }
    }

    /** `descend_parallel` can reach the decision's cell and version without raising. */
    predicate Applicable(d: Decision)
      reads this
    {
      gTemp.Some? && d.v < |gTemp.value.vs| && d.ref in catalog && d.version < |catalog[d.ref]|
    }

    /**
     * `recurse_descend`: the chosen version applied at the chosen cell by
     * `descend_parallel`, which reads the template and mapping the last
     * `descend` left behind; the 0 it returns on failure cannot be
     * unpacked and raises, as do a missing cell, reference or version.
     */
    method RecurseDescend(d: Decision) returns (out: Outcome<(Graph, Mapping)>)
      requires Valid()
      ensures out.Ok? ==> Applicable(d)
      ensures out.Ok? ==>
        var hier := catalog[d.ref][d.version].graph;
        Grown(gTemp.value, hier, d.v, returnMapping,
              Applied(out.value.0, out.value.1, Range(|gTemp.value.vs|, |hier.vs|)), design)
      ensures !Applicable(d) ==> out.Raised?
      ensures Applicable(d) && !PortsFit(gTemp.value, d.v, catalog[d.ref][d.version].graph) ==> out.Raised?
    {
      if gTemp.None? || d.v >= |gTemp.value.vs| || d.ref !in catalog || d.version >= |catalog[d.ref]| {
        return Raised;
      }
      var r := DescendParallel(d.v, d.ref, d.version);
      if r.None? {
        return Raised;
      }
      return Ok((r.value.graph, r.value.mapping));
    }

    /**
     * One candidate of `recurse_ascend`: version `ver` of `ref` opened up
     * around the template with its vertex `pos` standing for it, the
     * mapping updated, then a greedy search one level deeper. A failed
     * `update_map` leaves 0 where a mapping belongs, which raises.
     */
    method TryCandidate(gt: Graph, mapping: Mapping, ref: string, ver: nat, pos: nat, depth: nat, fuel: nat)
      returns (out: Outcome<(Graph, Mapping)>)
      requires Valid() && Usable(gt) && KeysIn(mapping, design)
      requires ref in catalog && ver < |catalog[ref]| && pos < |catalog[ref][ver].graph.vs|
      modifies this
      decreases 3 * Levels(depth) + 1
      ensures Valid() && CacheGrows(old(failed), failed)
      ensures out.Ok? ==> Usable(out.value.0) && KeysIn(out.value.1, design)
      ensures out.Ok? ==> Extends(out.value.1, mapping)
    {
      var hier := catalog[ref][ver].graph;
      assert hier.vs[pos].id == pos;
      var gNew, ok, added := ReplaceHierCell(gt, hier, pos, Direction.Ascend);
      var tmp := UpdateMap(design, gNew, mapping, added);
      if tmp.None? {
        return Raised;
      }
      KeysGrow(tmp.value, mapping, design, gNew);
      out := RunReplaceGreedy(gNew, tmp.value, depth + 1, fuel);
      if out.Ok? {
        ExtendsTrans(out.value.1, tmp.value, mapping);
      }
    }

    /**
     * `recurse_ascend`: every recorded (reference, version, position) is
     * opened up around the template in turn and searched greedily one
     * level deeper; the last candidate of the largest mapping is kept, and
     * the flag is clear when there was nothing to try or that mapping
     * beats the one given.
     */
    method RecurseAscend(lifts: seq<Lift>, gt: Graph, mapping: Mapping, depth: nat, fuel: nat)
      returns (out: Outcome<(Graph, Mapping, bool)>, ghost tried: seq<Mapping>)
      requires Valid() && Usable(gt) && KeysIn(mapping, design) && LiftsIn(catalog, lifts)
      modifies this
      decreases 3 * Levels(depth) + 2
      ensures Valid() && CacheGrows(old(failed), failed)
      ensures lifts == [] ==> out == Ok((gt, mapping, false))
      ensures out.Ok? && lifts != [] ==> |tried| == |Candidates(lifts)| && out.value.1 == LastLargest(tried)
      ensures out.Ok? && lifts != [] ==> (out.value.2 <==> |out.value.1| <= |mapping|)
      ensures out.Ok? ==> Usable(out.value.0) && KeysIn(out.value.1, design)
      ensures out.Ok? ==> Extends(out.value.1, mapping)
      ensures out.Ok? ==> forall k :: 0 <= k < |tried| ==> Extends(tried[k], mapping)
    {
      tried := [];
      if |lifts| == 0 {
        return Ok((gt, mapping, false)), tried;
      }
      var cands := Candidates(lifts);
      // The first candidate always wins the `>=` against the empty start,
      // so `gt` below is never returned.
      var gUp, mUp: Mapping := gt, map[];
      for c := 0 to |cands|
        invariant Valid() && CacheGrows(old(failed), failed)
        invariant TriedSoFar(design, mapping, tried, c, gUp, mUp)
      {
        CandidatesFrom(lifts, c);
        var (ref, ver, pos) := cands[c];
        var r := TryCandidate(gt, mapping, ref, ver, pos, depth, fuel);
        if !r.Ok? {
          return Propagate(r), tried;
        }
        TriedStep(design, mapping, tried, c, gUp, mUp, r.value.0, r.value.1);
        tried := tried + [r.value.1];
        if |r.value.1| >= |mUp| {
          gUp, mUp := r.value.0, r.value.1;
        }
      }
      CandidatesNonEmpty(lifts);
      return Ok((gUp, mUp, !(|mUp| > |mapping|))), tried;
    }

    /**
     * `run_replace_greedy`: from depth 2 it returns its input; otherwise it
     * settles, follows the best descend decision or else the ascend
     * decisions, and stops once a round has neither.
     */
    method RunReplaceGreedy(gt: Graph, mapping: Mapping, depth: nat, fuel: nat) returns (out: Outcome<(Graph, Mapping)>)
      requires Valid() && Usable(gt) && KeysIn(mapping, design)
      modifies this
      decreases if depth >= 2 then 0 else 3 * Levels(depth) + 3
      ensures Valid() && CacheGrows(old(failed), failed)
      ensures depth >= 2 ==> out == Ok((gt, mapping))
      ensures out.Ok? ==> Usable(out.value.0) && KeysIn(out.value.1, design)
      ensures out.Ok? ==> Extends(out.value.1, mapping)
    {
      if depth >= 2 {
        return Ok((gt, mapping));
      }
      var g, m := gt, mapping;
      var steps := fuel;
      while true
        invariant Valid() && Usable(g) && KeysIn(m, design) && CacheGrows(old(failed), failed)
        invariant Extends(m, mapping)
        decreases steps
      {
        if steps == 0 {
          return OutOfFuel;
        }
        steps := steps - 1;
        var s, lastFrom, lastCells := Settle(g, m, fuel);
        if !s.Ok? {
          return Propagate(s);
        }
        var flag: bool;
        if s.value.best.Some? {
          var r := RecurseDescend(s.value.best.value);
          if !r.Ok? {
            return Propagate(r);
          }
          ExtendsTrans(r.value.1, s.value.mapping, m);
          ExtendsTrans(r.value.1, m, mapping);
          g, m, flag := r.value.0, r.value.1, true;
        } else {
          var r, tried := RecurseAscend(s.value.lifts, s.value.graph, s.value.mapping, depth, fuel);
          if !r.Ok? {
            return Propagate(r);
          }
          ExtendsTrans(r.value.1, s.value.mapping, m);
          ExtendsTrans(r.value.1, m, mapping);
          g, m, flag := r.value.0, r.value.1, r.value.2;
        }
        if !flag && s.value.best.None? && s.value.lifts == [] {
          return Ok((g, m));
        }
      }
    }
  
    /**
     * The versions of `run_replace`'s last `decision_list`, each applied
     * at its cell of the settled template and searched one level deeper,
     * the first largest mapping kept.
     */
    method TryChoice(c: Choice, g: Graph, depth: nat, fuel: nat, ghost init: Mapping,
                     bigG: Graph, bigM: Mapping, ghost seen: seq<Mapping>)
      returns (out: Outcome<(Graph, Mapping)>, ghost seen': seq<Mapping>)
      requires Valid() && Usable(g) && ChoiceIn(catalog, Some(c), |g.vs|)
      requires Biggest(design, init, seen, bigG, bigM)
      modifies this
      decreases 4 * fuel
      ensures Valid() && CacheGrows(old(failed), failed)
      ensures out.Ok? ==> Biggest(design, init, seen', out.value.0, out.value.1)
      ensures |seen| <= |seen'| && seen'[..|seen|] == seen
    {
      var gBig, mBig := bigG, bigM;
      seen' := seen;
      for k := 0 to |c.versions|
        invariant Valid() && CacheGrows(old(failed), failed)
        invariant Biggest(design, init, seen', gBig, mBig)
        invariant |seen| <= |seen'| && seen'[..|seen|] == seen
      {
        gTemp := Some(g);
        var r := DescendParallel(c.v, c.ref, c.versions[k]);
        if r.None? {
          return Raised, seen';
        }
        if fuel == 0 {
          return OutOfFuel, seen';
        }
        var sub, subSeen := RunReplace(r.value.graph, r.value.mapping, depth + 1, fuel - 1);
        if !sub.Ok? {
          return Propagate(sub), seen';
        }
        assert (seen' + [sub.value.1])[..|seen'|] == seen';
        assert (seen' + [sub.value.1])[..|seen|] == seen;
        seen' := seen' + [sub.value.1];
        if |sub.value.1| > |mBig| {
          gBig, mBig := sub.value.0, sub.value.1;
        }
      }
      return Ok((gBig, mBig)), seen';
    }

    /**
     * `run_replace`, the exhaustive variant: after each settle every
     * version of the last `decision_list` is applied in turn and searched
     * one level deeper, and the first largest mapping met along the way
     * is kept; with no `decision_list` it follows the ascend decisions.
     */
    method RunReplace(gt: Graph, mapping: Mapping, depth: nat, fuel: nat)
      returns (out: Outcome<(Graph, Mapping)>, ghost seen: seq<Mapping>)
      requires Valid() && Usable(gt) && KeysIn(mapping, design)
      modifies this
      decreases 4 * fuel + 3
      ensures Valid() && CacheGrows(old(failed), failed)
      ensures out.Ok? ==> out.value.1 == Largest(mapping, seen)
      ensures out.Ok? ==> Usable(out.value.0) && KeysIn(out.value.1, design)
      ensures out.Ok? ==> 0 < |seen| && Extends(seen[0], mapping)
    {
      var bigG, bigM := gt, mapping;
      seen := [];
      var flag := false;
      var g, m := gt, mapping;
      var steps := fuel;
      while true
        invariant Valid() && CacheGrows(old(failed), failed)
        invariant Replacing(design, mapping, seen, g, m, bigG, bigM)
        decreases steps
      {
        if steps == 0 {
          return OutOfFuel, seen;
        }
        steps := steps - 1;
        var r, stop;
        r, stop, seen := ReplaceRound(mapping, seen, g, m, bigG, bigM, flag, depth, fuel);
        if !r.Ok? {
          return Propagate(r), seen;
        }
        g, m, bigG, bigM, flag := r.value.0, r.value.1, r.value.2, r.value.3, r.value.4;
        if stop {
          return Ok((bigG, bigM)), seen;
        }
      }
    }

    /**
     * One round of `run_replace`'s loop: settle, note the settled mapping,
     * then follow what the settle decided. The last field is
     * `recurse_pass_flag`, which only `recurse_ascend` sets; `stop` says
     * the round ends the loop.
     */
    method ReplaceRound(ghost mapping: Mapping, ghost seen: seq<Mapping>, g: Graph, m: Mapping,
                        bigG: Graph, bigM: Mapping, flag: bool, depth: nat, fuel: nat)
      returns (out: Outcome<(Graph, Mapping, Graph, Mapping, bool)>, stop: bool, ghost seen': seq<Mapping>)
      requires Valid() && Replacing(design, mapping, seen, g, m, bigG, bigM)
      modifies this
      decreases 4 * fuel + 2
      ensures Valid() && CacheGrows(old(failed), failed)
      ensures out.Ok? ==> Replacing(design, mapping, seen', out.value.0, out.value.1, out.value.2, out.value.3)
      ensures out.Ok? ==> 0 < |seen'|
    {
      var s, lastFrom, lastCells := Settle(g, m, fuel);
      if !s.Ok? {
        return Propagate(s), false, seen;
      }
      var m' := s.value.mapping;
      FirstStays(mapping, if |seen| == 0 then m' else seen[0], seen, seen + [m']);
      var gBig, mBig := bigG, bigM;
      if |m'| > |mBig| {
        gBig, mBig := s.value.graph, m';
      }
      out, seen' := FollowRound(mapping, seen + [m'], s.value, gBig, mBig, flag, depth, fuel);
      stop := out.Ok? && !out.value.4 && s.value.best.None? && s.value.lifts == [];
    }

    /**
     * The rest of a round of `run_replace` after its settle `st`: every
     * version of the last `decision_list` applied and searched one level
     * deeper, or else the ascend decisions followed.
     */
    method FollowRound(ghost mapping: Mapping, ghost seen: seq<Mapping>, st: Settled,
                       bigG: Graph, bigM: Mapping, flag: bool, depth: nat, fuel: nat)
      returns (out: Outcome<(Graph, Mapping, Graph, Mapping, bool)>, ghost seen': seq<Mapping>)
      requires Valid() && Usable(st.graph) && KeysIn(st.mapping, design) && KeysIn(mapping, design)
      requires ChoiceIn(catalog, st.choice, |st.graph.vs|) && LiftsIn(catalog, st.lifts)
      requires Biggest(design, mapping, seen, bigG, bigM) && 0 < |seen| && Extends(seen[0], mapping)
      modifies this
      decreases 4 * fuel + 1
      ensures Valid() && CacheGrows(old(failed), failed)
      ensures out.Ok? ==> Replacing(design, mapping, seen', out.value.0, out.value.1, out.value.2, out.value.3)
      ensures out.Ok? ==> 0 < |seen'|
    {
      if st.choice.Some? {
        var r;
        r, seen' := TryChoice(st.choice.value, st.graph, depth, fuel, mapping, bigG, bigM, seen);
        if !r.Ok? {
          return Propagate(r), seen';
        }
        FirstStays(mapping, seen[0], seen, seen');
        return Ok((r.value.0, r.value.1, r.value.0, r.value.1, flag)), seen';
      }
      var r, tried := RecurseAscend(st.lifts, st.graph, st.mapping, depth, fuel);
      if !r.Ok? {
        return Propagate(r), seen;
      }
      return Ok((r.value.0, r.value.1, bigG, bigM, r.value.2)), seen;
    }

    /**
     * The seed of `find_template` at design vertex `v`: the pair
     * (`v`, `anchor`) grown by `compare_vertex`, kept only when it grew
     * past that one pair.
     */
    method Seed(gt: Graph, v: nat, anchor: nat) returns (r: Option<Mapping>)
      requires v < |design.vs| && anchor < |gt.vs|
      ensures !CompareRef(design.vs[v], gt.vs[anchor]) ==> r.None?
      ensures r.Some? ==> |r.value| > 1 && v in r.value && r.value[v] == anchor
      ensures r.Some? ==> KeysIn(r.value, design) && NewPairsAgree(design, gt, r.value, map[v := anchor])
      ensures r.Some? ==> Injective(r.value)
    {
      var c := CompareVertex(map[v := anchor], design, v, gt, anchor);
      if c.Some? && |c.value| > 1 {
        KeysGrow(c.value, map[v := anchor], design, gt);
        return c;
      }
      return None;
    }

    /**
     * One span of `find_template`: every design vertex with the anchor's
     * reference that `compare_vertex` grows past one pair seeds a greedy
     * search, and the first largest mapping is kept with its template.
     */
    method SeedSpan(gt: Graph, anchor: nat, fuel: nat, bigG: Option<Graph>, bigM: Mapping, ghost seen: seq<Mapping>)
      returns (out: Outcome<(Option<Graph>, Mapping)>, ghost seen': seq<Mapping>, ghost origins: seq<nat>)
      requires Valid() && Usable(gt) && anchor < |gt.vs|
      requires Leading(design, seen, bigG, bigM)
      modifies this
      ensures Valid() && CacheGrows(old(failed), failed)
      ensures out.Ok? ==> Leading(design, seen', out.value.0, out.value.1)
      ensures out.Ok? ==> SeedsFrom(design, gt, anchor, seen, seen', origins)
    {
      var gBig, mBig := bigG, bigM;
      seen', origins := seen, [];
      var seeds := SelectRef(design, gt.vs[anchor].ref);
      for j := 0 to |seeds|
        invariant Valid() && CacheGrows(old(failed), failed)
        invariant Leading(design, seen', gBig, mBig)
        invariant SeedsFrom(design, gt, anchor, seen, seen', origins)
        invariant forall x :: x in origins ==> x in seeds[..j]
      {
        assert seeds[j] in seeds;
        var c := Seed(gt, seeds[j], anchor);
        if c.Some? {
          var r := RunReplaceGreedy(gt, c.value, 0, fuel);
          if !r.Ok? {
            return Propagate(r), seen', origins;
          }
          assert SeededBy(design, gt, anchor, r.value.1, seeds[j]);
          SeedsStep(design, gt, anchor, seen, seen', origins, seeds, j, r.value.1);
          assert (seen' + [r.value.1])[..|seen'|] == seen';
          seen', origins := seen' + [r.value.1], origins + [seeds[j]];
          if |r.value.1| > |mBig| {
            gBig, mBig := Some(r.value.0), r.value.1;
          }
        } else {
          SeedsSkip(origins, seeds, j);
        }
      }
      return Ok((gBig, mBig)), seen', origins;
    }

    /**
     * `find_template` for version `ver` of `ref`: every span with more
     * than five vertices or a DSP48E1 among them is searched from its
     * first vertex, and the first largest mapping is kept with its
     * template; a kept span with no vertices raises.
     */
    method FindTemplate(ref: string, ver: nat, fuel: nat)
      returns (out: Outcome<(Option<Graph>, Mapping)>, ghost seen: seq<Mapping>, ghost spanOf: seq<nat>,
               ghost origins: seq<nat>)
      requires Valid() && ref in catalog && ver < |catalog[ref]|
      modifies this
      ensures Valid() && CacheGrows(old(failed), failed)
      ensures out.Ok? ==> out.value.1 == Largest(map[], seen)
      ensures out.Ok? ==> (out.value.0.Some? <==> |out.value.1| > 0)
      ensures out.Ok? && out.value.0.Some? ==> Usable(out.value.0.value) && KeysIn(out.value.1, design)
      ensures out.Ok? ==> TemplateSoFar(design, catalog[ref][ver], |catalog[ref][ver].span|, seen, spanOf, origins)
      ensures out.Ok? && out.value.0.Some? ==> Anchored(design, catalog[ref][ver], out.value.1)
    {
      ghost var e := catalog[ref][ver];
      var spans := catalog[ref][ver].span;
      var bigG: Option<Graph>, bigM: Mapping := None, map[];
      seen, spanOf, origins := [], [], [];
      for k := 0 to |spans|
        invariant Valid() && CacheGrows(old(failed), failed)
        invariant Leading(design, seen, bigG, bigM)
        invariant TemplateSoFar(design, e, k, seen, spanOf, origins)
      {
        var r;
        r, seen, spanOf, origins := FindSpan(ref, ver, k, fuel, bigG, bigM, seen, spanOf, origins);
        if !r.Ok? {
          return r, seen, spanOf, origins;
        }
        bigG, bigM := r.value.0, r.value.1;
      }
      LargestAnchored(design, e, |spans|, seen, spanOf, origins);
      return Ok((bigG, bigM)), seen, spanOf, origins;
    }

    /** The versions of `ref` in the loop of `search`, each visited in order. */
    method SearchRef(ref: string, ghost refs: set<string>, fuel: nat, bigG: Option<Graph>, bigM: Mapping,
                     ghost seen: seq<Mapping>, ghost visited: seq<(string, nat)>)
      returns (out: Outcome<(Option<Graph>, Mapping)>, ghost seen': seq<Mapping>, ghost visited': seq<(string, nat)>)
      requires Valid() && ref in catalog && Leading(design, seen, bigG, bigM)
      requires Visited(design, catalog, visited, seen) && CoveredUpTo(catalog, refs, ref, 0, visited)
      modifies this
      ensures Valid() && CacheGrows(old(failed), failed)
      ensures out.Ok? ==> Leading(design, seen', out.value.0, out.value.1)
      ensures out.Ok? ==> Visited(design, catalog, visited', seen')
      ensures out.Ok? ==> CoveredUpTo(catalog, refs, ref, |catalog[ref]|, visited')
    {
      var gBig, mBig := bigG, bigM;
      seen', visited' := seen, visited;
      for ver := 0 to |catalog[ref]|
        invariant Valid() && CacheGrows(old(failed), failed)
        invariant Leading(design, seen', gBig, mBig)
        invariant Visited(design, catalog, visited', seen') && CoveredUpTo(catalog, refs, ref, ver, visited')
      {
        var r;
        r, seen', visited' := SearchVersion(ref, refs, ver, fuel, gBig, mBig, seen', visited');
        if !r.Ok? {
          return r, seen', visited';
        }
        gBig, mBig := r.value.0, r.value.1;
      }
      return Ok((gBig, mBig)), seen', visited';
    }

    /** Version `ver` of `ref` in the loop of `search`: its `find_template`, its mapping kept if strictly larger. */
    method SearchVersion(ref: string, ghost refs: set<string>, ver: nat, fuel: nat, bigG: Option<Graph>, bigM: Mapping,
                         ghost seen: seq<Mapping>, ghost visited: seq<(string, nat)>)
      returns (out: Outcome<(Option<Graph>, Mapping)>, ghost seen': seq<Mapping>, ghost visited': seq<(string, nat)>)
      requires Valid() && ref in catalog && ver < |catalog[ref]| && Leading(design, seen, bigG, bigM)
      requires Visited(design, catalog, visited, seen) && CoveredUpTo(catalog, refs, ref, ver, visited)
      modifies this
      ensures Valid() && CacheGrows(old(failed), failed)
      ensures out.Ok? ==> Leading(design, seen', out.value.0, out.value.1)
      ensures out.Ok? ==> Visited(design, catalog, visited', seen')
      ensures out.Ok? ==> CoveredUpTo(catalog, refs, ref, ver + 1, visited')
    {
      var r, found, spanOf, origins := FindTemplate(ref, ver, fuel);
      if !r.Ok? {
        return Propagate(r), seen, visited;
      }
      VisitStep(design, catalog, visited, seen, refs, ref, ver, r.value.1);
      assert (seen + [r.value.1])[..|seen|] == seen;
      seen', visited' := seen + [r.value.1], visited + [(ref, ver)];
      if |r.value.1| > |bigM| {
        return Ok((r.value.0, r.value.1)), seen', visited';
      }
      return Ok((bigG, bigM)), seen', visited';
    }

    /**
     * Span `k` of version `ver` of `ref` in `find_template`: searched from
     * its first vertex when the filter keeps it, raising when a kept span
     * has no vertices.
     */
    method FindSpan(ref: string, ver: nat, k: nat, fuel: nat, bigG: Option<Graph>, bigM: Mapping,
                    ghost seen: seq<Mapping>, ghost spanOf: seq<nat>, ghost origins: seq<nat>)
      returns (out: Outcome<(Option<Graph>, Mapping)>, ghost seen': seq<Mapping>, ghost spanOf': seq<nat>,
               ghost origins': seq<nat>)
      requires Valid() && ref in catalog && ver < |catalog[ref]| && k < |catalog[ref][ver].span|
      requires Leading(design, seen, bigG, bigM) && TemplateSoFar(design, catalog[ref][ver], k, seen, spanOf, origins)
      modifies this
      ensures Valid() && CacheGrows(old(failed), failed)
      ensures out.Ok? ==> Leading(design, seen', out.value.0, out.value.1)
      ensures out.Ok? ==> TemplateSoFar(design, catalog[ref][ver], k + 1, seen', spanOf', origins')
      ensures Kept(catalog[ref][ver].graph, catalog[ref][ver].span[k]) && |catalog[ref][ver].span[k].indices| == 0
        ==> out.Raised?
    {
      ghost var e := catalog[ref][ver];
      var gt := catalog[ref][ver].graph;
      var span := catalog[ref][ver].span[k];
      var keep := span.size > 5;
      if !keep {
        keep := HasComplexPrim(gt, span.indices);
      }
      if !keep {
        TemplateSkip(design, e, k, seen, spanOf, origins);
        return Ok((bigG, bigM)), seen, spanOf, origins;
      }
      if |span.indices| == 0 {
        return Raised, seen, spanOf, origins;
      }
      var r;
      ghost var more;
      r, seen', more := SeedSpan(gt, span.indices[0], fuel, bigG, bigM, seen);
      if !r.Ok? {
        return r, seen', spanOf, origins;
      }
      TemplateStep(design, e, k, seen, spanOf, origins, seen', more);
      return r, seen', spanOf + seq(|more|, _ => k), origins + more;
    }

    /**
     * `search`: `find_template` over every version of every reference in
     * the library, keeping the first largest mapping and its template.
     */
    method Search(fuel: nat)
      returns (out: Outcome<(Option<Graph>, Mapping)>, ghost seen: seq<Mapping>, ghost visited: seq<(string, nat)>)
      requires Valid()
      modifies this
      ensures Valid() && CacheGrows(old(failed), failed)
      ensures out.Ok? ==> out.value.1 == Largest(map[], seen)
      ensures out.Ok? ==> (out.value.0.Some? <==> |out.value.1| > 0)
      ensures out.Ok? && out.value.0.Some? ==> Usable(out.value.0.value) && KeysIn(out.value.1, design)
      ensures out.Ok? ==> Visited(design, catalog, visited, seen)
      ensures out.Ok? ==> forall r, v :: r in catalog && 0 <= v < |catalog[r]| ==> (r, v) in visited
      ensures out.Ok? && out.value.0.Some? ==>
        exists k :: 0 <= k < |visited| && Anchored(design, catalog[visited[k].0][visited[k].1], out.value.1)
    {
      var bigG: Option<Graph>, bigM: Mapping := None, map[];
      seen, visited := [], [];
      var refs := catalog.Keys;
      while refs != {}
        invariant refs <= catalog.Keys
        invariant Valid() && CacheGrows(old(failed), failed)
        invariant Leading(design, seen, bigG, bigM)
        invariant Visited(design, catalog, visited, seen) && Covered(catalog, refs, visited)
        decreases |refs|
      {
        var ref :| ref in refs;
        StartRef(catalog, refs, ref, visited);
        refs := refs - {ref};
        var r;
        r, seen, visited := SearchRef(ref, refs, fuel, bigG, bigM, seen, visited);
        if !r.Ok? {
          return r, seen, visited;
        }
        bigG, bigM := r.value.0, r.value.1;
        EndRef(catalog, refs, ref, visited);
      }
      LargestVisited(design, catalog, visited, seen);
      return Ok((bigG, bigM)), seen, visited;
    }
  }
}
