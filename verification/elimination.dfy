/** The elimination queries: the trivial scan, the decision `isEliminated`
    and the certificate `certificateOfElimination`. The max-flow computation
    is an input: a function from the built network to what the max-flow
    library reports about it. */
module Elimination {
  import opened Results
  import opened Standings
  import opened Numbering
  import opened FlowNetworks

  /** What `new FordFulkerson(fn, s, t)` reports: the flow on the i-th edge
      added to the network, and whether a vertex lies on the source side of
      the minimum cut (`inCut`). */
  datatype MaxFlow = MaxFlow(flow: nat -> int, inCut: nat -> bool)

  /** An edge carrying flow `f` is below its capacity (`fe.flow() < fe.capacity()`);
      an unbounded edge always is. */
  predicate Unsaturated(e: Edge, f: int)
  {
    match e.cap
    case Finite(c) => f < c
    case Unbounded => true
  }

  /** Edge `e` is in the adjacency list of vertex v (`fn.adj(v)`), which
      holds the edges leaving and the edges entering v. */
  predicate Incident(e: Edge, v: nat)
  {
    e.from == v || e.to == v
  }

  // ----- The trivial scan -----

  /** Team i has more wins than x can reach by winning every remaining game. */
  predicate OutOfReach(d: Division, x: nat, i: nat)
    requires d.WellFormed() && x < |d.teams| && i < |d.teams|
  {
    i != x && d.win[x] + d.remain[x] < d.win[i]
  }

  /** Team i is the lowest-numbered team out of x's reach. */
  predicate LowestOutOfReach(d: Division, x: nat, i: nat)
    requires d.WellFormed() && x < |d.teams|
  {
    i < |d.teams| && OutOfReach(d, x, i) && forall j :: 0 <= j < i ==> !OutOfReach(d, x, j)
  }

  /** First team i >= `i` other than x that x cannot catch even by winning
      every remaining game: win[x] + r[x] - win[i] < 0. */
  function RivalFrom(d: Division, x: nat, i: nat): (r: Option<nat>)
    requires d.WellFormed() && x < |d.teams| && i <= |d.teams|
    ensures r.Some? ==>
      && i <= r.value < |d.teams| && r.value != x
      && d.win[x] + d.remain[x] < d.win[r.value]
      && forall j :: i <= j < r.value && j != x ==> d.win[j] <= d.win[x] + d.remain[x]
    ensures r.None? ==>
      forall j :: i <= j < |d.teams| && j != x ==> d.win[j] <= d.win[x] + d.remain[x]
    decreases |d.teams| - i
  {
    if i == |d.teams| then None
    else if i != x && Headroom(d, x, i) < 0 then Some(i)
    else RivalFrom(d, x, i + 1)
  }

  /** The lowest team that trivially eliminates x, if any (the first loop of
      `isEliminated` and of `certificateOfElimination`). */
  function TrivialRival(d: Division, x: nat): (r: Option<nat>)
    requires d.WellFormed() && x < |d.teams|
    ensures r.Some? ==>
      && r.value < |d.teams| && r.value != x
      && d.win[x] + d.remain[x] < d.win[r.value]
      && forall j :: 0 <= j < r.value && j != x ==> d.win[j] <= d.win[x] + d.remain[x]
    ensures r.None? <==>
      forall j :: 0 <= j < |d.teams| && j != x ==> d.win[j] <= d.win[x] + d.remain[x]
  {
    RivalFrom(d, x, 0)
  }

  /** The scan finds exactly the lowest-numbered team out of x's reach. */
  lemma TrivialRivalIsLowest(d: Division, x: nat)
    requires d.WellFormed() && x < |d.teams|
    ensures forall i: nat :: TrivialRival(d, x) == Some(i) <==> LowestOutOfReach(d, x, i)
  {
    forall i: nat
      ensures TrivialRival(d, x) == Some(i) <==> LowestOutOfReach(d, x, i)
    {
      if LowestOutOfReach(d, x, i) {
        var r := TrivialRival(d, x);
        assert OutOfReach(d, x, i);
        if r.Some? && r.value < i {
          assert OutOfReach(d, x, r.value);
        }
      }
    }
  }

  /** The trivial scan lets the builder run exactly when every team -> sink
      capacity it would emit is non-negative. */
  lemma TrivialScanGuardsCapacities(d: Division, x: nat)
    requires d.WellFormed() && x < |d.teams|
    ensures TrivialRival(d, x).None? <==>
      forall e :: e in Build(d, x).edges && e.to == SinkId(|d.teams|) ==>
        e.cap.Finite? && e.cap.amount >= 0
  {
    var n := |d.teams|;
    BuildEdgesExact(d, x);
    DecodeEncode(n, Sink);
    match TrivialRival(d, x)
    case Some(i) =>
      SinkEdgeBuilt(d, x, i);
      DecodeEncode(n, Team(i));
      assert SinkEdge(d, x, i).to == SinkId(n);
    case None =>
      forall e | e in Build(d, x).edges && e.to == SinkId(n)
        ensures e.cap.Finite? && e.cap.amount >= 0
      {
        assert Expected(d, x, e);
      }
  }

  /** With non-negative game counts, a network built after the trivial scan
      has only non-negative capacities: no malformed edge reaches the library. */
  lemma BuiltCapacitiesNonNegative(d: Division, x: nat)
    requires d.WellFormed() && x < |d.teams|
    requires forall i, j :: 0 <= i < |d.teams| && 0 <= j < |d.teams| ==> d.against[i][j] >= 0
    requires TrivialRival(d, x).None?
    ensures forall e :: e in Build(d, x).edges && e.cap.Finite? ==> e.cap.amount >= 0
  {
    var n := |d.teams|;
    BuildEdgesExact(d, x);
    forall e | e in Build(d, x).edges && e.cap.Finite?
      ensures e.cap.amount >= 0
    {
      assert Expected(d, x, e);
    }
  }

  // ----- The decision -----

  /** The loop over `fn.adj(s)` from edge position i on: true at the first
      edge of the source's adjacency list whose flow is below its capacity,
      false when the list runs out. */
  function DeficitFrom(net: Network, mf: MaxFlow, i: nat): (r: bool)
    requires i <= |net.edges|
    ensures r <==> exists j :: i <= j < |net.edges| && DeficitAt(net, mf, j)
    decreases |net.edges| - i
  {
    if i == |net.edges| then false
    else if DeficitAt(net, mf, i) then true
    else DeficitFrom(net, mf, i + 1)
  }

  /** Edge i is in the source's adjacency list and carries less than its capacity. */
  predicate DeficitAt(net: Network, mf: MaxFlow, i: nat)
    requires i < |net.edges|
  {
    Incident(net.edges[i], net.source) && Unsaturated(net.edges[i], mf.flow(i))
  }

  /** The saturation test of `isEliminated` and `certificateOfElimination`:
      some edge in the source's adjacency list is below capacity. */
  function SourceDeficit(net: Network, mf: MaxFlow): (r: bool)
    ensures r <==> exists i :: 0 <= i < |net.edges| && DeficitAt(net, mf, i)
  {
    DeficitFrom(net, mf, 0)
  }

  /** Whether team x is eliminated (`isEliminated` once the name is resolved).
      A team some other team is out of reach of (`win[x] + r[x] < win[i]`)
      is eliminated whatever the max-flow library would report, and with a single team there is nobody
      to be eliminated by. */
  function EliminatedAt(d: Division, x: nat, solve: Network -> MaxFlow): (r: bool)
    requires d.WellFormed() && x < |d.teams|
    ensures (exists i :: 0 <= i < |d.teams| && OutOfReach(d, x, i)) ==> r
    ensures |d.teams| == 1 ==> !r
  {
    if TrivialRival(d, x).Some? then true
    else
      var net := Build(d, x);
      SourceDeficit(net, solve(net))
  }

  /** `isEliminated(team)`: fails on an unknown name, otherwise decides for
      the first team of that name. */
  function IsEliminated(d: Division, team: string, solve: Network -> MaxFlow): (r: Result<bool, Error>)
    requires d.WellFormed()
    ensures r.Failure? <==> team !in d.teams
    ensures forall x :: FirstAt(d.teams, team, x) ==> r == Success(EliminatedAt(d, x, solve))
  {
    match IndexOf(d.teams, team)
    case None => Failure(InvalidTeam)
    case Some(x) => Success(EliminatedAt(d, x, solve))
  }

  /** The only edges in the source's adjacency list are the source -> game
      edges, at positions 3p of the edge list. */
  lemma SourceAdjacency(d: Division, x: nat)
    requires d.WellFormed() && x < |d.teams|
    ensures var net, ps := Build(d, x), Pairs(|d.teams|, x);
      forall i :: 0 <= i < |net.edges| ==>
        (Incident(net.edges[i], SourceId) <==> i < 3 * |ps| && i % 3 == 0)
  {
    forall i | 0 <= i < |Build(d, x).edges|
      ensures Incident(Build(d, x).edges[i], SourceId) <==> i < 3 * |Pairs(|d.teams|, x)| && i % 3 == 0
    {
      SourceEdgesAt(d, x, i);
    }
  }

  lemma SourceEdgesAt(d: Division, x: nat, i: nat)
    requires d.WellFormed() && x < |d.teams| && i < |Build(d, x).edges|
    ensures Incident(Build(d, x).edges[i], SourceId) <==> i < 3 * |Pairs(|d.teams|, x)| && i % 3 == 0
  {
    var ps := Pairs(|d.teams|, x);
    BuildEdgeCount(d, x);
    if i < 3 * |ps| {
      var p, r := SplitThree(i);
      GameEdgeIncidence(d, x, p, r);
    } else {
      SinkEdgeIncidence(d, x, i - 3 * |ps|);
    }
  }

  /** Of the three edges of a pair, only the first touches the source. */
  lemma GameEdgeIncidence(d: Division, x: nat, p: nat, r: nat)
    requires d.WellFormed() && x < |d.teams|
    requires p < |Pairs(|d.teams|, x)| && r < 3
    ensures Incident(Build(d, x).edges[3 * p + r], SourceId) <==> r == 0
  {
    GameEdgeShape(d, x, p, r);
  }

  /** No team -> sink edge touches the source. */
  lemma SinkEdgeIncidence(d: Division, x: nat, q: nat)
    requires d.WellFormed() && x < |d.teams|
    requires q < |Others(|d.teams|, x)|
    ensures !Incident(Build(d, x).edges[3 * |Pairs(|d.teams|, x)| + q], SourceId)
  {
    BuildSinkEdgeAt(d, x, q);
  }

  /** An unsaturated edge in the source's list is the source edge of a pair
      whose flow is below the games left between the two teams. */
  lemma DeficitEdgeIsPair(d: Division, x: nat, mf: MaxFlow, i: nat)
    requires d.WellFormed() && x < |d.teams| && i < |Build(d, x).edges|
    requires Incident(Build(d, x).edges[i], SourceId) && Unsaturated(Build(d, x).edges[i], mf.flow(i))
    ensures var ps := Pairs(|d.teams|, x);
      i % 3 == 0 && i / 3 < |ps| && mf.flow(3 * (i / 3)) < d.against[ps[i / 3].0][ps[i / 3].1]
  {
    SourceEdgesAt(d, x, i);
    var p := i / 3;
    assert i == 3 * p;
    BuildGameEdgeAt(d, x, p, 0);
  }

  /** The source edge of a pair whose flow is below its games is unsaturated. */
  lemma PairIsDeficitEdge(d: Division, x: nat, mf: MaxFlow, p: nat)
    requires d.WellFormed() && x < |d.teams|
    requires var ps := Pairs(|d.teams|, x); p < |ps| && mf.flow(3 * p) < d.against[ps[p].0][ps[p].1]
    ensures SourceDeficit(Build(d, x), mf)
  {
    BuildEdgeCount(d, x);
    BuildGameEdgeAt(d, x, p, 0);
    var net := Build(d, x);
    assert DeficitAt(net, mf, 3 * p);
  }

  /** On the flow path, x is eliminated iff some pair {k, j} of other teams
      has fewer units of flow on its source edge than games left between
      them: not every remaining game can be assigned without some team
      passing x. */
  lemma FlowDecision(d: Division, x: nat, solve: Network -> MaxFlow)
    requires d.WellFormed() && x < |d.teams| && TrivialRival(d, x).None?
    ensures var ps, mf := Pairs(|d.teams|, x), solve(Build(d, x));
      EliminatedAt(d, x, solve) <==>
        exists p :: 0 <= p < |ps| && mf.flow(3 * p) < d.against[ps[p].0][ps[p].1]
  {
    var net := Build(d, x);
    var ps, mf := Pairs(|d.teams|, x), solve(net);
    assert EliminatedAt(d, x, solve) == SourceDeficit(net, mf);
    if SourceDeficit(net, mf) {
      var i :| 0 <= i < |net.edges| && Incident(net.edges[i], net.source) && Unsaturated(net.edges[i], mf.flow(i));
      DeficitEdgeIsPair(d, x, mf, i);
    }
    if p :| 0 <= p < |ps| && mf.flow(3 * p) < d.against[ps[p].0][ps[p].1] {
      PairIsDeficitEdge(d, x, mf, p);
    }
  }

  /** Flow leaving the source through the first m edges (the max-flow value
      once m covers the whole edge list). */
  function SourceFlow(net: Network, mf: MaxFlow, m: nat): int
    requires m <= |net.edges|
  {
    if m == 0 then 0
    else SourceFlow(net, mf, m - 1) + (if net.edges[m - 1].from == net.source then mf.flow(m - 1) else 0)
  }

  /** Capacity leaving the source through the first m edges. */
  function SourceCapacity(net: Network, m: nat): int
    requires m <= |net.edges|
  {
    if m == 0 then 0
    else
      var e := net.edges[m - 1];
      SourceCapacity(net, m - 1) + (if e.from == net.source && e.cap.Finite? then e.cap.amount else 0)
  }

  /** The reported flow respects the capacities of the source edges, which
      are all finite. */
  ghost predicate FeasibleAtSource(net: Network, mf: MaxFlow)
  {
    forall i :: 0 <= i < |net.edges| && net.edges[i].from == net.source ==>
      net.edges[i].cap.Finite? && mf.flow(i) <= net.edges[i].cap.amount
  }

  lemma {:induction false} DeficitIffFlowBelowCapacity(net: Network, mf: MaxFlow, m: nat)
    requires m <= |net.edges| && FeasibleAtSource(net, mf)
    requires forall i :: 0 <= i < |net.edges| ==> net.edges[i].to != net.source
    ensures SourceFlow(net, mf, m) <= SourceCapacity(net, m)
    ensures (exists i :: 0 <= i < m && DeficitAt(net, mf, i)) <==> SourceFlow(net, mf, m) < SourceCapacity(net, m)
  {
    if m > 0 {
      DeficitIffFlowBelowCapacity(net, mf, m - 1);
      var e := net.edges[m - 1];
      if DeficitAt(net, mf, m - 1) {
        assert e.from == net.source;
      }
    }
  }

  /** Games left among the listed pairs: the sum of `against[k][j]` over the
      pairs {k, j} of `ps`. */
  function PairGames(d: Division, ps: seq<(nat, nat)>): int
    requires d.WellFormed() && ValidPairs(ps, |d.teams|)
  {
    if |ps| == 0 then 0
    else PairGames(d, ps[..|ps| - 1]) + d.against[ps[|ps| - 1].0][ps[|ps| - 1].1]
  }

  /** Edge 3q of `net` leaves the source with the games left in the q-th
      listed pair, and edges 3q + 1 and 3q + 2 do not leave the source. */
  ghost predicate PairSourceEdge(net: Network, d: Division, ps: seq<(nat, nat)>, q: nat)
    requires d.WellFormed() && ValidPairs(ps, |d.teams|) && q < |ps|
  {
    var k, j := ps[q].0, ps[q].1;
    && 3 * q + 2 < |net.edges|
    && net.edges[3 * q].from == net.source
    && net.edges[3 * q].cap == Finite(d.against[k][j])
    && net.edges[3 * q + 1].from != net.source
    && net.edges[3 * q + 2].from != net.source
  }

  /** In any network whose edges come three per listed pair, the source
      edges of the first p pairs carry the games left among them. */
  lemma {:induction false} SourceCapacityOfListedPairs(net: Network, d: Division, ps: seq<(nat, nat)>, p: nat)
    requires d.WellFormed() && ValidPairs(ps, |d.teams|) && p <= |ps| && 3 * p <= |net.edges|
    requires forall q :: 0 <= q < |ps| ==> PairSourceEdge(net, d, ps, q)
    ensures ValidPairs(ps[..p], |d.teams|)
    ensures SourceCapacity(net, 3 * p) == PairGames(d, ps[..p])
  {
    if p > 0 {
      SourceCapacityOfListedPairs(net, d, ps, p - 1);
      assert PairSourceEdge(net, d, ps, p - 1);
      var m := 3 * (p - 1);
      assert SourceCapacity(net, m + 1) == SourceCapacity(net, m) + d.against[ps[p - 1].0][ps[p - 1].1];
      assert SourceCapacity(net, m + 2) == SourceCapacity(net, m + 1);
      PairGamesSnoc(d, ps, p);
    }
  }

  /** Extending a prefix of the pairs by one pair adds that pair's games. */
  lemma PairGamesSnoc(d: Division, ps: seq<(nat, nat)>, p: nat)
    requires d.WellFormed() && ValidPairs(ps, |d.teams|) && 0 < p <= |ps|
    ensures ValidPairs(ps[..p], |d.teams|) && ValidPairs(ps[..p - 1], |d.teams|)
    ensures PairGames(d, ps[..p]) == PairGames(d, ps[..p - 1]) + d.against[ps[p - 1].0][ps[p - 1].1]
  {
    assert ps[..p][..p - 1] == ps[..p - 1];
  }

  /** The source edges of the pairs of `buildFNG(x)` carry the games left
      among those pairs. */
  lemma SourceCapacityOfPairs(d: Division, x: nat)
    requires d.WellFormed() && x < |d.teams|
    ensures 3 * |Pairs(|d.teams|, x)| <= |Build(d, x).edges|
    ensures var ps := Pairs(|d.teams|, x);
      SourceCapacity(Build(d, x), 3 * |ps|) == PairGames(d, ps[..|ps|])
  {
    var n, net, ps := |d.teams|, Build(d, x), Pairs(|d.teams|, x);
    BuildEdgeCount(d, x);
    forall q | 0 <= q < |ps|
      ensures PairSourceEdge(net, d, ps, q)
    {
      BuildPairEdges(d, x, q);
      GameVertexRange(n, ps[q].0, ps[q].1);
    }
    SourceCapacityOfListedPairs(net, d, ps, |ps|);
  }

  /** Edges that do not leave the source add no capacity. */
  lemma {:induction false} SourceCapacityFlat(net: Network, m: nat, q: nat)
    requires m + q <= |net.edges|
    requires forall i :: m <= i < m + q ==> net.edges[i].from != net.source
    ensures SourceCapacity(net, m + q) == SourceCapacity(net, m)
  {
    if q > 0 {
      SourceCapacityFlat(net, m, q - 1);
    }
  }

  /** No team -> sink edge of `buildFNG(x)` leaves the source. */
  lemma SourceCapacityOfSinkEdges(d: Division, x: nat)
    requires d.WellFormed() && x < |d.teams|
    ensures 3 * |Pairs(|d.teams|, x)| <= |Build(d, x).edges|
    ensures SourceCapacity(Build(d, x), |Build(d, x).edges|) == SourceCapacity(Build(d, x), 3 * |Pairs(|d.teams|, x)|)
  {
    var net, m := Build(d, x), 3 * |Pairs(|d.teams|, x)|;
    var q := |net.edges| - m;
    BuildEdgeCount(d, x);
    forall i | m <= i < m + q
      ensures net.edges[i].from != net.source
    {
      SinkEdgeLeavesTeam(d, x, i);
    }
    SourceCapacityFlat(net, m, q);
  }

  /** An edge after the pairs' edges leaves a team vertex, not the source. */
  lemma SinkEdgeLeavesTeam(d: Division, x: nat, i: nat)
    requires d.WellFormed() && x < |d.teams|
    requires 3 * |Pairs(|d.teams|, x)| <= i < |Build(d, x).edges|
    ensures Build(d, x).edges[i].from != SourceId
  {
    var ps, os := Pairs(|d.teams|, x), Others(|d.teams|, x);
    BuildEdgeCount(d, x);
    BuildSinkEdgeAt(d, x, i - 3 * |ps|);
  }

  /** The capacity out of the source of `buildFNG(x)` is the number of games
      left among the teams other than x. */
  lemma SourceCapacityIsGamesLeft(d: Division, x: nat)
    requires d.WellFormed() && x < |d.teams|
    ensures var net, ps := Build(d, x), Pairs(|d.teams|, x);
      SourceCapacity(net, |net.edges|) == PairGames(d, ps)
  {
    var ps, os := Pairs(|d.teams|, x), Others(|d.teams|, x);
    BuildEdgeCount(d, x);
    SourceCapacityOfPairs(d, x);
    SourceCapacityOfSinkEdges(d, x);
    WholePrefix(ps);
  }

  lemma WholePrefix<T>(s: seq<T>)
    ensures s[..|s|] == s
  {
  }

  /** With a feasible flow, x is eliminated on the flow path iff the flow
      out of the source is below the capacity out of the source. */
  lemma FlowBelowCapacityDecision(d: Division, x: nat, solve: Network -> MaxFlow)
    requires d.WellFormed() && x < |d.teams| && TrivialRival(d, x).None?
    requires FeasibleAtSource(Build(d, x), solve(Build(d, x)))
    ensures var net := Build(d, x);
      EliminatedAt(d, x, solve) <==>
        SourceFlow(net, solve(net), |net.edges|) < SourceCapacity(net, |net.edges|)
  {
    var net := Build(d, x);
    BuildWellFormed(d, x);
    assert forall i :: 0 <= i < |net.edges| ==> net.edges[i] in net.edges;
    DeficitIffFlowBelowCapacity(net, solve(net), |net.edges|);
    assert EliminatedAt(d, x, solve) == SourceDeficit(net, solve(net));
  }

  /** With a feasible flow, the saturation test is the textbook one: x is
      eliminated on the flow path iff the max-flow value is below the games
      left among the other teams. */
  lemma FlowValueDecision(d: Division, x: nat, solve: Network -> MaxFlow)
    requires d.WellFormed() && x < |d.teams| && TrivialRival(d, x).None?
    requires FeasibleAtSource(Build(d, x), solve(Build(d, x)))
    ensures var net := Build(d, x);
      EliminatedAt(d, x, solve) <==>
        SourceFlow(net, solve(net), |net.edges|) < PairGames(d, Pairs(|d.teams|, x))
  {
    FlowBelowCapacityDecision(d, x, solve);
    SourceCapacityIsGamesLeft(d, x);
  }

  // ----- The certificate -----

  /** Teams whose vertices, scanned from id `a` up to V - 2, are in the cut. */
  function CutTeamsFrom(n: nat, inCut: nat -> bool, a: nat): (ks: seq<nat>)
    requires GameCount(n) + 1 <= a <= VertexCount(n) - 1
    ensures forall k: nat :: k in ks <==> a <= TeamVertex(n, k) < VertexCount(n) - 1 && inCut(TeamVertex(n, k))
    ensures forall p :: 0 <= p < |ks| ==> a <= TeamVertex(n, ks[p])
    ensures forall p, q :: 0 <= p < q < |ks| ==> ks[p] < ks[q]
    decreases VertexCount(n) - 1 - a
  {
    if a == VertexCount(n) - 1 then []
    else (if inCut(a) then [a - GameCount(n) - 1] else []) + CutTeamsFrom(n, inCut, a + 1)
  }

  /** The teams of the min-cut scan over ids `GameCount(n) + 1 .. VertexCount(n) - 2`:
      exactly the teams whose vertex is in the cut, in index order. The scan
      walks only team ids, so no game vertex or other id reaches the result. */
  function CutTeams(n: nat, inCut: nat -> bool): (ks: seq<nat>)
    ensures forall k: nat :: k in ks <==> k < n && inCut(TeamVertex(n, k))
    ensures forall p :: 0 <= p < |ks| ==> ks[p] < n
    ensures forall p, q :: 0 <= p < q < |ks| ==> ks[p] < ks[q]
  {
    var ks := CutTeamsFrom(n, inCut, GameCount(n) + 1);
    assert forall p :: 0 <= p < |ks| ==> ks[p] in ks;
    ks
  }

  /** The names of the teams `ks` (`teams.get(...)` for each). */
  function NamesOf(names: seq<string>, ks: seq<nat>): (r: seq<string>)
    requires forall p :: 0 <= p < |ks| ==> ks[p] < |names|
    ensures |r| == |ks|
    ensures forall p :: 0 <= p < |ks| ==> r[p] == names[ks[p]]
  {
    if |ks| == 0 then [] else [names[ks[0]]] + NamesOf(names, ks[1..])
  }

  /** `name` belongs to a team whose vertex is in the cut. */
  ghost predicate NamedInCut(names: seq<string>, inCut: nat -> bool, name: string)
  {
    exists k :: 0 <= k < |names| && names[k] == name && inCut(TeamVertex(|names|, k))
  }

  /** The names the certificate scan collects are exactly the names of the
      teams whose vertices are in the cut. */
  lemma NamesOfCutTeams(names: seq<string>, inCut: nat -> bool)
    ensures forall name :: name in NamesOf(names, CutTeams(|names|, inCut)) <==> NamedInCut(names, inCut, name)
  {
    var n := |names|;
    var ks := CutTeams(n, inCut);
    var c := NamesOf(names, ks);
    forall name | name in c
      ensures NamedInCut(names, inCut, name)
    {
      var p :| 0 <= p < |c| && c[p] == name;
      assert ks[p] in ks;
    }
    forall name | NamedInCut(names, inCut, name)
      ensures name in c
    {
      var k :| 0 <= k < n && names[k] == name && inCut(TeamVertex(n, k));
      assert k in ks;
      var p :| 0 <= p < |ks| && ks[p] == k;
      assert c[p] == name;
    }
  }

  /** The certificate for team x (`certificateOfElimination` once the name is
      resolved); None is the Java code's `null`. A certificate is present exactly
      when x is eliminated, and a trivially eliminated team gets the one-team
      certificate naming the lowest-numbered team it cannot catch. On the
      flow path the certificate names exactly the teams whose vertices the
      library puts in the cut, one entry per such team, in index order. */
  function CertificateAt(d: Division, x: nat, solve: Network -> MaxFlow): (c: Option<seq<string>>)
    requires d.WellFormed() && x < |d.teams|
    ensures c.Some? <==> EliminatedAt(d, x, solve)
    ensures forall i: nat :: LowestOutOfReach(d, x, i) ==> c == Some([d.teams[i]])
    ensures TrivialRival(d, x).None? && c.Some? ==>
      forall name :: name in c.value <==> NamedInCut(d.teams, solve(Build(d, x)).inCut, name)
    ensures TrivialRival(d, x).None? && c.Some? ==>
      c.value == NamesOf(d.teams, CutTeams(|d.teams|, solve(Build(d, x)).inCut))
  {
    TrivialRivalIsLowest(d, x);
    match TrivialRival(d, x)
    case Some(i) => Some([d.teams[i]])
    case None =>
      var net := Build(d, x);
      var mf := solve(net);
      NamesOfCutTeams(d.teams, mf.inCut);
      if SourceDeficit(net, mf) then Some(NamesOf(d.teams, CutTeams(|d.teams|, mf.inCut)))
      else None
  }

  /** `certificateOfElimination(team)`: fails on an unknown name. */
  function Certificate(d: Division, team: string, solve: Network -> MaxFlow): (r: Result<Option<seq<string>>, Error>)
    requires d.WellFormed()
    ensures r.Failure? <==> team !in d.teams
    ensures forall x :: FirstAt(d.teams, team, x) ==> r == Success(CertificateAt(d, x, solve))
  {
    match IndexOf(d.teams, team)
    case None => Failure(InvalidTeam)
    case Some(x) => Success(CertificateAt(d, x, solve))
  }

  /** What the Ford-Fulkerson cut promises of its source side: it holds the
      source, and it is closed along every edge with residual capacity. */
  ghost predicate ResidualClosed(net: Network, mf: MaxFlow)
  {
    && mf.inCut(net.source)
    && forall i :: 0 <= i < |net.edges| && mf.inCut(net.edges[i].from) && Unsaturated(net.edges[i], mf.flow(i)) ==>
      mf.inCut(net.edges[i].to)
  }

  /** Along a residually closed cut, an unsaturated source edge pulls both
      teams of its pair into the cut. */
  lemma UnsaturatedPairInCut(d: Division, x: nat, mf: MaxFlow, p: nat)
    requires d.WellFormed() && x < |d.teams|
    requires ResidualClosed(Build(d, x), mf)
    requires var ps := Pairs(|d.teams|, x); p < |ps| && mf.flow(3 * p) < d.against[ps[p].0][ps[p].1]
    ensures var ps := Pairs(|d.teams|, x);
      mf.inCut(TeamVertex(|d.teams|, ps[p].0)) && mf.inCut(TeamVertex(|d.teams|, ps[p].1))
  {
    var n, net, ps := |d.teams|, Build(d, x), Pairs(|d.teams|, x);
    var k, j := ps[p].0, ps[p].1;
    var g := GameVertex(n, k, j);
    BuildPairEdges(d, x, p);
    GameEdgesPullTeams(net, mf, p, g, TeamVertex(n, k), TeamVertex(n, j), d.against[k][j]);
  }

  /** The residual closure step along one source→game edge and its two
      game→team edges. */
  lemma GameEdgesPullTeams(net: Network, mf: MaxFlow, p: nat, g: nat, a: nat, b: nat, c: int)
    requires ResidualClosed(net, mf) && 3 * p + 2 < |net.edges| && net.source == SourceId
    requires net.edges[3 * p] == Edge(SourceId, g, Finite(c)) && mf.flow(3 * p) < c
    requires net.edges[3 * p + 1] == Edge(g, a, Unbounded)
    requires net.edges[3 * p + 2] == Edge(g, b, Unbounded)
    ensures mf.inCut(a) && mf.inCut(b)
  {
    assert mf.inCut(net.edges[3 * p].to);
  }

  /** If the library's cut is closed along residual edges, a team eliminated
      on the flow path gets a non-empty certificate: both teams of an
      unsaturated pair are in it. */
  lemma FlowCertificateNonEmpty(d: Division, x: nat, solve: Network -> MaxFlow)
    requires d.WellFormed() && x < |d.teams| && TrivialRival(d, x).None?
    requires ResidualClosed(Build(d, x), solve(Build(d, x)))
    requires EliminatedAt(d, x, solve)
    ensures CertificateAt(d, x, solve).Some? && |CertificateAt(d, x, solve).value| > 0
  {
    var n := |d.teams|;
    var mf := solve(Build(d, x));
    var ps := Pairs(n, x);
    FlowDecision(d, x, solve);
    var p :| 0 <= p < |ps| && mf.flow(3 * p) < d.against[ps[p].0][ps[p].1];
    UnsaturatedPairInCut(d, x, mf, p);
    assert d.teams[ps[p].0] in CertificateAt(d, x, solve).value;
  }
}
