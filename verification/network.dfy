/** The elimination network `buildFNG` constructs for a queried team x: an
    edge list over the vertex numbering of module Numbering. */
module FlowNetworks {
  import opened Results
  import opened Standings
  import opened Numbering

  /** An edge capacity: a number of games, or the unbounded capacity the
      Java code writes as `Double.POSITIVE_INFINITY`. */
  datatype Capacity = Finite(amount: int) | Unbounded

  /** A directed edge `from -> to` (`FlowEdge`). */
  datatype Edge = Edge(from: nat, to: nat, cap: Capacity)

  /** A network together with the dimensions `buildFNG` used to store in
      fields: `vertices` is V, `games` is gameV, and the source and sink ids. */
  datatype Network = Network(vertices: nat, source: nat, sink: nat, games: nat, edges: seq<Edge>)

  // ----- The pairs the nested loop of buildFNG visits -----

  /** Pair p comes strictly before pair q in the loop order (k, then j). */
  predicate Before(p: (nat, nat), q: (nat, nat))
  {
    p.0 < q.0 || (p.0 == q.0 && p.1 < q.1)
  }

  /** The pairs are listed in strictly increasing loop order, hence distinct. */
  ghost predicate Increasing(ps: seq<(nat, nat)>)
  {
    forall p, q :: 0 <= p < q < |ps| ==> Before(ps[p], ps[q])
  }

  /** The pairs (k, j'), j <= j' < n, the inner loop visits for row k,
      without those touching x. */
  function RowPairs(n: nat, x: nat, k: nat, j: nat): (ps: seq<(nat, nat)>)
    ensures forall p :: 0 <= p < |ps| ==> ps[p].0 == k && j <= ps[p].1 < n && k != x && ps[p].1 != x
    ensures Increasing(ps)
    ensures j <= n ==> |ps| == if k == x then 0 else if j <= x < n then n - j - 1 else n - j
    decreases n - j
  {
    if j >= n then []
    else (if k == x || j == x then [] else [(k, j)]) + RowPairs(n, x, k, j + 1)
  }

  /** Row k lists every pair (k, b) the loop does not skip. */
  lemma {:induction false} RowPairsComplete(n: nat, x: nat, k: nat, j: nat, b: nat)
    requires j <= b < n && k != x && b != x
    ensures (k, b) in RowPairs(n, x, k, j)
    decreases n - j
  {
    if j < b {
      RowPairsComplete(n, x, k, j + 1, b);
    }
  }

  /** The pairs the outer loop visits from row k on. */
  function PairsFrom(n: nat, x: nat, k: nat): (ps: seq<(nat, nat)>)
    ensures forall p :: 0 <= p < |ps| ==>
      k <= ps[p].0 < ps[p].1 < n && ps[p].0 != x && ps[p].1 != x
    ensures Increasing(ps)
    decreases n - k
  {
    if k >= n then []
    else
      var row, rest := RowPairs(n, x, k, k + 1), PairsFrom(n, x, k + 1);
      assert forall p, q :: 0 <= p < |row| && 0 <= q < |rest| ==> Before(row[p], rest[q]);
      row + rest
  }

  /** Rows k and on list every pair (a, b), k <= a, the loops do not skip. */
  lemma {:induction false} PairsFromComplete(n: nat, x: nat, k: nat, a: nat, b: nat)
    requires k <= a < b < n && a != x && b != x
    ensures (a, b) in PairsFrom(n, x, k)
    decreases n - k
  {
    if k < a {
      PairsFromComplete(n, x, k + 1, a, b);
    } else {
      RowPairsComplete(n, x, k, k + 1, b);
    }
  }

  /** Every pair the loops of buildFNG emit edges for, in loop order: the
      pairs k < j < n with neither k nor j equal to x, each once. */
  function Pairs(n: nat, x: nat): (ps: seq<(nat, nat)>)
    ensures forall a: nat, b: nat :: (a, b) in ps <==> a < b < n && a != x && b != x
    ensures forall p :: 0 <= p < |ps| ==> ps[p].0 < ps[p].1 < n && ps[p].0 != x && ps[p].1 != x
    ensures Increasing(ps)
  {
    var ps := PairsFrom(n, x, 0);
    forall a: nat, b: nat | a < b < n && a != x && b != x
      ensures (a, b) in ps
    {
      PairsFromComplete(n, x, 0, a, b);
    }
    ps
  }

  /** The teams j' in j .. n - 1 other than x, in increasing order. */
  function OthersFrom(n: nat, x: nat, j: nat): (js: seq<nat>)
    ensures forall m: nat :: m in js <==> j <= m < n && m != x
    ensures forall p, q :: 0 <= p < q < |js| ==> js[p] < js[q]
    ensures forall p :: 0 <= p < |js| ==> j <= js[p]
    ensures j <= n ==> |js| == if j <= x < n then n - j - 1 else n - j
    decreases n - j
  {
    if j >= n then []
    else (if j == x then [] else [j]) + OthersFrom(n, x, j + 1)
  }

  /** The teams the sink-edge loop of buildFNG visits: every team but x. */
  function Others(n: nat, x: nat): (js: seq<nat>)
    ensures forall m: nat :: m in js <==> m < n && m != x
    ensures forall p :: 0 <= p < |js| ==> js[p] < n && js[p] != x
    ensures forall p, q :: 0 <= p < q < |js| ==> js[p] < js[q]
    ensures x < n ==> |js| == n - 1
  {
    var js := OthersFrom(n, x, 0);
    assert forall p :: 0 <= p < |js| ==> js[p] in js;
    js
  }

  lemma PairsFromStep(n: nat, x: nat, k: nat)
    requires k < n
    ensures |PairsFrom(n, x, k)| == |RowPairs(n, x, k, k + 1)| + |PairsFrom(n, x, k + 1)|
  {
  }

  /** Counting step: row k of the loops adds the pairs (k, j), j > k, j != x. */
  lemma LoopCountStep(n: nat, x: nat, k: nat, row: nat, rest: nat)
    requires x < n && k < n
    requires row == if k == x then 0 else if k < x then n - k - 2 else n - k - 1
    requires rest == GameCount(if k + 1 <= x then n - k - 2 else n - k - 1)
    ensures row + rest == GameCount(if k <= x then n - k - 1 else n - k)
  {
  }

  lemma {:induction false} PairsFromCount(n: nat, x: nat, k: nat)
    requires x < n && k <= n
    ensures |PairsFrom(n, x, k)| == GameCount(if k <= x then n - k - 1 else n - k)
    decreases n - k
  {
    if k < n {
      PairsFromCount(n, x, k + 1);
      PairsFromStep(n, x, k);
      LoopCountStep(n, x, k, |RowPairs(n, x, k, k + 1)|, |PairsFrom(n, x, k + 1)|);
    }
  }

  /** The loops visit GameCount(n - 1) pairs: every pair of the other n - 1 teams. */
  lemma PairsCount(n: nat, x: nat)
    requires x < n
    ensures |Pairs(n, x)| == GameCount(n - 1)
  {
    PairsFromCount(n, x, 0);
  }

  // ----- The edges -----

  /** Every listed pair is i < j of n teams. */
  ghost predicate ValidPairs(ps: seq<(nat, nat)>, n: nat)
  {
    forall p :: 0 <= p < |ps| ==> ps[p].0 < ps[p].1 < n
  }

  /** The three edges of the pair {k, j}: source -> game with the games left
      between k and j, and two unbounded edges game -> team. */
  function PairEdges(d: Division, k: nat, j: nat): seq<Edge>
    requires d.WellFormed() && k < j < |d.teams|
  {
    var n := |d.teams|;
    var game := GameVertex(n, k, j);
    [Edge(SourceId, game, Finite(d.against[k][j])),
     Edge(game, TeamVertex(n, k), Unbounded),
     Edge(game, TeamVertex(n, j), Unbounded)]
  }

  /** The edges of the pairs `ps`, three per pair, in order. */
  function GameEdges(d: Division, ps: seq<(nat, nat)>): (es: seq<Edge>)
    requires d.WellFormed() && ValidPairs(ps, |d.teams|)
    ensures |es| == 3 * |ps|
  {
    if |ps| == 0 then []
    else PairEdges(d, ps[0].0, ps[0].1) + GameEdges(d, ps[1..])
  }

  /** Capacity of team j's edge to the sink: the wins j may still add without
      passing x's best possible total. */
  function Headroom(d: Division, x: nat, j: nat): int
    requires d.WellFormed() && x < |d.teams| && j < |d.teams|
  {
    d.win[x] + d.remain[x] - d.win[j]
  }

  /** The edge team(j) -> sink. */
  function SinkEdge(d: Division, x: nat, j: nat): Edge
    requires d.WellFormed() && x < |d.teams| && j < |d.teams|
  {
    var n := |d.teams|;
    Edge(TeamVertex(n, j), SinkId(n), Finite(Headroom(d, x, j)))
  }

  /** The sink edges of the teams `js`, one per team, in order. */
  function SinkEdges(d: Division, x: nat, js: seq<nat>): (es: seq<Edge>)
    requires d.WellFormed() && x < |d.teams|
    requires forall p :: 0 <= p < |js| ==> js[p] < |d.teams|
    ensures |es| == |js|
    ensures forall p :: 0 <= p < |js| ==> es[p] == SinkEdge(d, x, js[p])
  {
    if |js| == 0 then []
    else [SinkEdge(d, x, js[0])] + SinkEdges(d, x, js[1..])
  }

  /** The network `buildFNG(x)` builds, with the vertex counts and the
      source and sink ids it kept in fields. It has three edges per
      pair of teams other than x and one per team other than x. */
  function Build(d: Division, x: nat): (net: Network)
    requires d.WellFormed() && x < |d.teams|
    ensures net.source == SourceId && net.sink == SinkId(|d.teams|)
    ensures net.vertices == VertexCount(|d.teams|) && net.games == GameCount(|d.teams|)
    ensures |net.edges| == 3 * GameCount(|d.teams| - 1) + (|d.teams| - 1)
  {
    var n, ps, os := |d.teams|, Pairs(|d.teams|, x), Others(|d.teams|, x);
    PairsCount(n, x);
    var es := GameEdges(d, ps) + SinkEdges(d, x, os);
    assert |es| == 3 * |ps| + |os|;
    Network(VertexCount(n), SourceId, SinkId(n), GameCount(n), es)
  }

  // ----- What the edge list is -----

  /** Independent description of the edges of the network for x, read off
      the decoded endpoints: source -> game {k, j} with capacity
      against[k][j]; game {k, j} -> team k or team j, unbounded; team j ->
      sink with capacity win[x] + remain[x] - win[j]; never a pair or team
      involving x. */
  ghost predicate Expected(d: Division, x: nat, e: Edge)
    requires d.WellFormed() && x < |d.teams|
  {
    var n := |d.teams|;
    match (Decode(n, e.from), Decode(n, e.to))
    case (Some(Source), Some(Game(k, j))) =>
      k != x && j != x && e.cap == Finite(d.against[k][j])
    case (Some(Game(k, j)), Some(Team(m))) =>
      k != x && j != x && (m == k || m == j) && e.cap == Unbounded
    case (Some(Team(j)), Some(Sink)) =>
      j != x && e.cap == Finite(Headroom(d, x, j))
    case _ => false
  }

  lemma {:induction false} GameEdgesAt(d: Division, ps: seq<(nat, nat)>, p: nat, r: nat)
    requires d.WellFormed() && ValidPairs(ps, |d.teams|)
    requires p < |ps| && r < 3
    ensures GameEdges(d, ps)[3 * p + r] == PairEdges(d, ps[p].0, ps[p].1)[r]
  {
    if p > 0 {
      GameEdgesAt(d, ps[1..], p - 1, r);
    }
  }

  /** The built network lists three edges per pair, then one per other team. */
  lemma BuildEdgeCount(d: Division, x: nat)
    requires d.WellFormed() && x < |d.teams|
    ensures |Build(d, x).edges| == 3 * |Pairs(|d.teams|, x)| + |Others(|d.teams|, x)|
  {
  }

  /** Edges 3p, 3p + 1 and 3p + 2 are those of the p-th pair. */
  lemma BuildGameEdgeAt(d: Division, x: nat, p: nat, r: nat)
    requires d.WellFormed() && x < |d.teams|
    requires p < |Pairs(|d.teams|, x)| && r < 3
    ensures var ps := Pairs(|d.teams|, x);
      Build(d, x).edges[3 * p + r] == PairEdges(d, ps[p].0, ps[p].1)[r]
  {
    var ps := Pairs(|d.teams|, x);
    GameEdgesAt(d, ps, p, r);
  }

  /** After the game edges, edge 3|ps| + q is the sink edge of the q-th other team. */
  lemma BuildSinkEdgeAt(d: Division, x: nat, q: nat)
    requires d.WellFormed() && x < |d.teams|
    requires q < |Others(|d.teams|, x)|
    ensures var ps, os := Pairs(|d.teams|, x), Others(|d.teams|, x);
      Build(d, x).edges[3 * |ps| + q] == SinkEdge(d, x, os[q])
  {
  }

  /** Every edge of the built network is one the description allows. */
  lemma PairEdgesExpected(d: Division, x: nat, k: nat, j: nat, r: nat)
    requires d.WellFormed() && x < |d.teams|
    requires k < j < |d.teams| && k != x && j != x && r < 3
    ensures Expected(d, x, PairEdges(d, k, j)[r])
  {
    var n := |d.teams|;
    DecodeEncode(n, Game(k, j));
    if r == 0 {
      DecodeEncode(n, Source);
    } else if r == 1 {
      DecodeEncode(n, Team(k));
    } else {
      DecodeEncode(n, Team(j));
    }
  }

  lemma SinkEdgeExpected(d: Division, x: nat, j: nat)
    requires d.WellFormed() && x < |d.teams| && j < |d.teams| && j != x
    ensures Expected(d, x, SinkEdge(d, x, j))
  {
    DecodeEncode(|d.teams|, Team(j));
    DecodeEncode(|d.teams|, Sink);
  }

  lemma BuildEdgeExpected(d: Division, x: nat, i: nat)
    requires d.WellFormed() && x < |d.teams| && i < |Build(d, x).edges|
    ensures Expected(d, x, Build(d, x).edges[i])
  {
    var ps, os := Pairs(|d.teams|, x), Others(|d.teams|, x);
    BuildEdgeCount(d, x);
    if i < 3 * |ps| {
      var p, r := SplitThree(i);
      BuildGameEdgeAt(d, x, p, r);
      PairEdgesExpected(d, x, ps[p].0, ps[p].1, r);
    } else {
      var q := i - 3 * |ps|;
      BuildSinkEdgeAt(d, x, q);
      SinkEdgeExpected(d, x, os[q]);
    }
  }

  /** Every edge the description allows is in the built network. */
  lemma PairEdgesBuilt(d: Division, x: nat, k: nat, j: nat, r: nat)
    requires d.WellFormed() && x < |d.teams|
    requires k < j < |d.teams| && k != x && j != x && r < 3
    ensures PairEdges(d, k, j)[r] in Build(d, x).edges
  {
    var ps := Pairs(|d.teams|, x);
    assert (k, j) in ps;
    var p :| 0 <= p < |ps| && ps[p] == (k, j);
    BuildEdgeCount(d, x);
    BuildGameEdgeAt(d, x, p, r);
  }

  lemma SinkEdgeBuilt(d: Division, x: nat, j: nat)
    requires d.WellFormed() && x < |d.teams|
    requires j < |d.teams| && j != x
    ensures SinkEdge(d, x, j) in Build(d, x).edges
  {
    var os := Others(|d.teams|, x);
    assert j in os;
    var q :| 0 <= q < |os| && os[q] == j;
    BuildEdgeCount(d, x);
    BuildSinkEdgeAt(d, x, q);
  }

  lemma ExpectedEdgeBuilt(d: Division, x: nat, e: Edge)
    requires d.WellFormed() && x < |d.teams| && Expected(d, x, e)
    ensures e in Build(d, x).edges
  {
    var n := |d.teams|;
    match (Decode(n, e.from), Decode(n, e.to))
    case (Some(Source), Some(Game(k, j))) =>
      assert e == PairEdges(d, k, j)[0];
      PairEdgesBuilt(d, x, k, j, 0);
    case (Some(Game(k, j)), Some(Team(m))) =>
      if m == k {
        assert e == PairEdges(d, k, j)[1];
        PairEdgesBuilt(d, x, k, j, 1);
      } else {
        assert e == PairEdges(d, k, j)[2];
        PairEdgesBuilt(d, x, k, j, 2);
      }
    case (Some(Team(j)), Some(Sink)) =>
      assert e == SinkEdge(d, x, j);
      SinkEdgeBuilt(d, x, j);
  }

  /** The built network holds exactly the described edges. */
  lemma BuildEdgesExact(d: Division, x: nat)
    requires d.WellFormed() && x < |d.teams|
    ensures forall e :: e in Build(d, x).edges <==> Expected(d, x, e)
  {
    BuildEdgesSound(d, x);
    BuildEdgesComplete(d, x);
  }

  /** Every edge buildFNG(x) adds is one the description allows. */
  lemma BuildEdgesSound(d: Division, x: nat)
    requires d.WellFormed() && x < |d.teams|
    ensures forall e :: e in Build(d, x).edges ==> Expected(d, x, e)
  {
    forall e | e in Build(d, x).edges
      ensures Expected(d, x, e)
    {
      var i :| 0 <= i < |Build(d, x).edges| && Build(d, x).edges[i] == e;
      BuildEdgeExpected(d, x, i);
    }
  }

  /** Every edge the description allows is added by buildFNG(x). */
  lemma BuildEdgesComplete(d: Division, x: nat)
    requires d.WellFormed() && x < |d.teams|
    ensures forall e :: Expected(d, x, e) ==> e in Build(d, x).edges
  {
    forall e | Expected(d, x, e)
      ensures e in Build(d, x).edges
    {
      ExpectedEdgeBuilt(d, x, e);
    }
  }

  /** The three edges of the p-th listed pair {k, j}, spelled out. */
  lemma BuildPairEdges(d: Division, x: nat, p: nat)
    requires d.WellFormed() && x < |d.teams|
    requires p < |Pairs(|d.teams|, x)|
    ensures var n, ps := |d.teams|, Pairs(|d.teams|, x);
      var k, j := ps[p].0, ps[p].1;
      var es, g := Build(d, x).edges, GameVertex(n, k, j);
      && 3 * p + 2 < |es|
      && es[3 * p] == Edge(SourceId, g, Finite(d.against[k][j]))
      && es[3 * p + 1] == Edge(g, TeamVertex(n, k), Unbounded)
      && es[3 * p + 2] == Edge(g, TeamVertex(n, j), Unbounded)
  {
    BuildEdgeCount(d, x);
    BuildGameEdgeAt(d, x, p, 0);
    BuildGameEdgeAt(d, x, p, 1);
    BuildGameEdgeAt(d, x, p, 2);
  }

  lemma GameEdgeShape(d: Division, x: nat, p: nat, r: nat)
    requires d.WellFormed() && x < |d.teams|
    requires p < |Pairs(|d.teams|, x)| && r < 3
    ensures var n, ps := |d.teams|, Pairs(|d.teams|, x);
      var e, g := Build(d, x).edges[3 * p + r], GameVertex(n, ps[p].0, ps[p].1);
      && 1 <= g <= GameCount(n)
      && (r == 0 ==> e.from == SourceId && e.to == g)
      && (r == 1 ==> e.from == g && e.to == TeamVertex(n, ps[p].0))
      && (r == 2 ==> e.from == g && e.to == TeamVertex(n, ps[p].1))
  {
    var ps := Pairs(|d.teams|, x);
    GameVertexRange(|d.teams|, ps[p].0, ps[p].1);
    BuildGameEdgeAt(d, x, p, r);
  }

  lemma PairEdgesDiffer(d: Division, x: nat, p: nat, r: nat, p': nat, r': nat)
    requires d.WellFormed() && x < |d.teams|
    requires p <= p' < |Pairs(|d.teams|, x)| && r < 3 && r' < 3
    requires p < p' || r < r'
    ensures Build(d, x).edges[3 * p + r] != Build(d, x).edges[3 * p' + r']
  {
    var n, ps := |d.teams|, Pairs(|d.teams|, x);
    GameEdgeShape(d, x, p, r);
    GameEdgeShape(d, x, p', r');
    if p < p' {
      assert Before(ps[p], ps[p']);
      if GameVertex(n, ps[p].0, ps[p].1) == GameVertex(n, ps[p'].0, ps[p'].1) {
        GameVertexInjective(n, ps[p].0, ps[p].1, ps[p'].0, ps[p'].1);
        assert false;
      }
    }
  }

  lemma GameSinkEdgesDiffer(d: Division, x: nat, p: nat, r: nat, q: nat)
    requires d.WellFormed() && x < |d.teams|
    requires p < |Pairs(|d.teams|, x)| && r < 3 && q < |Others(|d.teams|, x)|
    ensures Build(d, x).edges[3 * p + r] != Build(d, x).edges[3 * |Pairs(|d.teams|, x)| + q]
  {
    GameEdgeShape(d, x, p, r);
    BuildSinkEdgeAt(d, x, q);
  }

  /** Position i of the game edges is offset r of the p-th pair. */
  lemma SplitThree(i: nat) returns (p: nat, r: nat)
    ensures i == 3 * p + r && r < 3
  {
    p, r := i / 3, i % 3;
  }

  lemma EdgesAtDiffer(d: Division, x: nat, i: nat, i': nat)
    requires d.WellFormed() && x < |d.teams|
    requires i < i' < |Build(d, x).edges|
    ensures Build(d, x).edges[i] != Build(d, x).edges[i']
  {
    var ps := Pairs(|d.teams|, x);
    BuildEdgeCount(d, x);
    var p, r := SplitThree(i);
    var p', r' := SplitThree(i');
    if i' < 3 * |ps| {
      PairEdgesDiffer(d, x, p, r, p', r');
    } else if i < 3 * |ps| {
      GameSinkEdgesDiffer(d, x, p, r, i' - 3 * |ps|);
    } else {
      BuildSinkEdgeAt(d, x, i - 3 * |ps|);
      BuildSinkEdgeAt(d, x, i' - 3 * |ps|);
    }
  }

  /** No edge is added twice: with BuildEdgesExact, every described edge
      occurs exactly once. */
  lemma BuildEdgesDistinct(d: Division, x: nat)
    requires d.WellFormed() && x < |d.teams|
    ensures forall i, i' :: 0 <= i < i' < |Build(d, x).edges| ==>
      Build(d, x).edges[i] != Build(d, x).edges[i']
  {
    forall i, i' | 0 <= i < i' < |Build(d, x).edges|
      ensures Build(d, x).edges[i] != Build(d, x).edges[i']
    {
      EdgesAtDiffer(d, x, i, i');
    }
  }

  /** The shape the max-flow library demands of a network: distinct source
      and sink, every endpoint a vertex, nothing entering the source. */
  ghost predicate WellFormedNetwork(net: Network)
  {
    && net.source < net.vertices
    && net.sink < net.vertices
    && net.source != net.sink
    && forall e :: e in net.edges ==> e.from < net.vertices && e.to < net.vertices && e.to != net.source
  }

  lemma BuildWellFormed(d: Division, x: nat)
    requires d.WellFormed() && x < |d.teams|
    ensures WellFormedNetwork(Build(d, x))
  {
    var n := |d.teams|;
    BuildEdgesExact(d, x);
    forall e | e in Build(d, x).edges
      ensures e.from < VertexCount(n) && e.to < VertexCount(n) && e.to != SourceId
    {
      assert Expected(d, x, e);
    }
  }

  /** No edge touches the vertex of the queried team x. */
  lemma QueriedTeamIsolated(d: Division, x: nat)
    requires d.WellFormed() && x < |d.teams|
    ensures forall e :: e in Build(d, x).edges ==>
      e.from != TeamVertex(|d.teams|, x) && e.to != TeamVertex(|d.teams|, x)
  {
    var n := |d.teams|;
    BuildEdgesExact(d, x);
    DecodeEncode(n, Team(x));
    forall e | e in Build(d, x).edges
      ensures e.from != TeamVertex(n, x) && e.to != TeamVertex(n, x)
    {
      assert Expected(d, x, e);
    }
  }

  /** No edge touches the game vertex of a pair that involves x. */
  lemma QueriedPairIsolated(d: Division, x: nat, k: nat, j: nat)
    requires d.WellFormed() && x < |d.teams|
    requires k < j < |d.teams| && (k == x || j == x)
    ensures forall e :: e in Build(d, x).edges ==>
      e.from != GameVertex(|d.teams|, k, j) && e.to != GameVertex(|d.teams|, k, j)
  {
    var n := |d.teams|;
    BuildEdgesExact(d, x);
    DecodeEncode(n, Game(k, j));
    forall e | e in Build(d, x).edges
      ensures e.from != GameVertex(n, k, j) && e.to != GameVertex(n, k, j)
    {
      assert Expected(d, x, e);
    }
  }
}
