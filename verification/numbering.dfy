/** Vertex numbering of the elimination network for a division of n teams.
    Vertex 0 is the source. Game vertices, one per unordered pair {i, j} of
    teams, are numbered 1 .. GameCount(n) row by row (all pairs {0, _} first,
    then {1, _}, ...). Team vertex k is GameCount(n) + 1 + k, and the sink is
    the last vertex, VertexCount(n) - 1. */
module Numbering {
  import opened Results

  /** Number of game vertices for n teams (`gameV`): the number of unordered
      pairs, counted one team at a time. */
  function GameCount(n: nat): nat
  {
    if n == 0 then 0 else GameCount(n - 1) + (n - 1)
  }

  /** Number of vertices of the network (`V`): source, games, teams, sink. */
  function VertexCount(n: nat): nat
  {
    2 + n + GameCount(n)
  }

  /** The source vertex (`s`). */
  const SourceId: nat := 0

  /** The sink vertex (`t`). */
  function SinkId(n: nat): nat
  {
    VertexCount(n) - 1
  }

  /** The vertex of team k (`k + gameV + 1`). */
  function TeamVertex(n: nat, k: nat): nat
  {
    k + GameCount(n) + 1
  }

  /** Reference count: number of unordered pairs {a, b} with a < i, a < b < n,
      that is the game vertices that precede row i. */
  function RowStart(n: nat, i: nat): nat
    requires i <= n
  {
    if i == 0 then 0 else RowStart(n, i - 1) + (n - i)
  }

  /** The closed form the Java code divides by two is twice the reference count. */
  lemma {:induction false} RowStartClosedForm(n: nat, i: nat)
    requires i <= n
    ensures (n * 2 - i - 1) * i == 2 * RowStart(n, i)
  {
    if i > 0 {
      RowStartClosedForm(n, i - 1);
      assert (n * 2 - i - 1) * i == (n * 2 - (i - 1) - 1) * (i - 1) + 2 * (n - i);
    }
  }

  /** Row starts grow with the row: an earlier row never starts later. */
  lemma {:induction false} RowStartMonotone(n: nat, a: nat, b: nat)
    requires a <= b <= n
    ensures RowStart(n, a) <= RowStart(n, b)
  {
    if a < b {
      RowStartMonotone(n, a, b - 1);
    }
  }

  /** The Java code's closed form `n * (n - 1) / 2` for `gameV` is the pair count. */
  lemma {:induction false} GameCountClosedForm(n: nat)
    ensures 2 * GameCount(n) == n * (n - 1)
    ensures GameCount(n) == n * (n - 1) / 2
  {
    if n > 0 {
      GameCountClosedForm(n - 1);
      assert n * (n - 1) == (n - 1) * (n - 2) + 2 * (n - 1);
    }
  }

  /** All rows together hold GameCount(n) pairs. */
  lemma GameCountIsAllRows(n: nat)
    ensures GameCount(n) == RowStart(n, n)
  {
    GameCountClosedForm(n);
    RowStartClosedForm(n, n);
    if n > 0 {
      assert n * (n - 1) == (n * 2 - n - 1) * n;
    }
  }

  /** Game vertex of the pair {i, j}, 0 when i == j: the pairs of the rows
      before the smaller team's row, plus the offset within that row. */
  function GameVertex(n: nat, i: nat, j: nat): nat
    requires i < n && j < n
  {
    if j == i then 0
    else if j < i then RowStart(n, j) + (i - j)
    else RowStart(n, i) + (j - i)
  }

  /** `convertGV` as the Java code writes it, with the triangular closed form. It
      agrees with GameVertex and does not depend on the order of the pair. */
  function ConvertGV(n: nat, i: nat, j: nat): (v: int)
    requires i < n && j < n
    ensures v == GameVertex(n, i, j) && v == GameVertex(n, j, i)
  {
    RowStartClosedForm(n, i);
    RowStartClosedForm(n, j);
    if j == i then 0
    else if j < i then (n * 2 - j - 1) * j / 2 + i - j
    else (n * 2 - i - 1) * i / 2 + j - i
  }

  /** Row i occupies the ids RowStart(n, i) + 1 .. RowStart(n, i + 1). */
  lemma GameVertexInRow(n: nat, i: nat, j: nat)
    requires i < j < n
    ensures RowStart(n, i) < GameVertex(n, i, j) <= RowStart(n, i + 1)
  {
  }

  /** A pair of distinct teams gets an id in 1 .. GameCount(n) (`gameV`),
      so it never collides with the source 0 or with a team vertex. */
  lemma GameVertexRange(n: nat, i: nat, j: nat)
    requires i < n && j < n && i != j
    ensures 1 <= GameVertex(n, i, j) <= GameCount(n)
  {
    var lo, hi := if i < j then i else j, if i < j then j else i;
    GameVertexInRow(n, lo, hi);
    RowStartMonotone(n, lo + 1, n);
    GameCountIsAllRows(n);
  }

  /** Distinct unordered pairs get distinct game vertices. */
  lemma GameVertexInjective(n: nat, i: nat, j: nat, i': nat, j': nat)
    requires i < j < n && i' < j' < n
    requires GameVertex(n, i, j) == GameVertex(n, i', j')
    ensures i == i' && j == j'
  {
    GameVertexInRow(n, i, j);
    GameVertexInRow(n, i', j');
    if i < i' {
      RowStartMonotone(n, i + 1, i');
      assert false;
    } else if i' < i {
      RowStartMonotone(n, i' + 1, i);
      assert false;
    }
  }

  /** The pair whose game vertex is `v`, found by scanning rows from `i`. */
  function PairFromRow(n: nat, v: nat, i: nat): (p: (nat, nat))
    requires i < n && RowStart(n, i) < v <= GameCount(n)
    ensures p.0 < p.1 < n && GameVertex(n, p.0, p.1) == v
    decreases n - i
  {
    if v <= RowStart(n, i + 1) then
      (i, i + (v - RowStart(n, i)))
    else
      GameCountIsAllRows(n);
      PairFromRow(n, v, i + 1)
  }

  /** The unordered pair {i, j}, i < j, whose game vertex is `v`. */
  function GamePair(n: nat, v: nat): (p: (nat, nat))
    requires 1 <= v <= GameCount(n)
    ensures p.0 < p.1 < n && GameVertex(n, p.0, p.1) == v
  {
    PairFromRow(n, v, 0)
  }

  /** The pair GamePair finds for an id is the only pair with that id. */
  lemma GamePairUnique(n: nat, v: nat, i: nat, j: nat)
    requires i < j < n && 1 <= v <= GameCount(n)
    requires GameVertex(n, i, j) == v
    ensures GamePair(n, v) == (i, j)
  {
    var p := GamePair(n, v);
    var a, b := p.0, p.1;
    GameVertexInjective(n, i, j, a, b);
  }

  /** GamePair inverts GameVertex on pairs i < j. */
  lemma GamePairRoundTrip(n: nat, i: nat, j: nat)
    requires i < j < n
    ensures 1 <= GameVertex(n, i, j) <= GameCount(n)
    ensures GamePair(n, GameVertex(n, i, j)) == (i, j)
  {
    GameVertexRange(n, i, j);
    GamePairUnique(n, GameVertex(n, i, j), i, j);
  }

  // ----- Vertex kinds: the numbering as a bijection -----

  /** What a vertex of the network stands for. */
  datatype Vertex = Source | Game(i: nat, j: nat) | Team(k: nat) | Sink

  /** A vertex of the network for n teams; a game is named by its pair i < j. */
  predicate ValidVertex(n: nat, u: Vertex)
  {
    match u
    case Game(i, j) => i < j < n
    case Team(k) => k < n
    case _ => true
  }

  /** The id of a vertex. */
  function Encode(n: nat, u: Vertex): (v: nat)
    requires ValidVertex(n, u)
    ensures v < VertexCount(n)
  {
    match u
    case Source => SourceId
    case Game(i, j) => GameVertexRange(n, i, j); GameVertex(n, i, j)
    case Team(k) => TeamVertex(n, k)
    case Sink => SinkId(n)
  }

  /** The vertex an id stands for; None outside 0 .. VertexCount(n) - 1.
      Every id below VertexCount(n) is the id of the vertex it decodes to, so
      the ids are dense. Ids gameV + 1 .. V - 2, the range the certificate
      scan walks, are exactly the team vertices. */
  function Decode(n: nat, v: nat): (u: Option<Vertex>)
    ensures u.Some? <==> v < VertexCount(n)
    ensures u.Some? ==> ValidVertex(n, u.value) && Encode(n, u.value) == v
    ensures GameCount(n) + 1 <= v < VertexCount(n) - 1 <==> u.Some? && u.value.Team?
    ensures GameCount(n) + 1 <= v < VertexCount(n) - 1 ==> u == Some(Team(v - GameCount(n) - 1))
  {
    if v == SourceId then Some(Source)
    else if v <= GameCount(n) then
      var p := GamePair(n, v); Some(Game(p.0, p.1))
    else if v <= GameCount(n) + n then Some(Team(v - GameCount(n) - 1))
    else if v == SinkId(n) then Some(Sink)
    else None
  }

  /** Decoding an encoded vertex gives it back: no two vertices share an id,
      so source, game, team and sink ids are pairwise disjoint. */
  lemma DecodeEncode(n: nat, u: Vertex)
    requires ValidVertex(n, u)
    ensures Decode(n, Encode(n, u)) == Some(u)
  {
    match u
    case Game(i, j) =>
      GameVertexRange(n, i, j);
      GamePairRoundTrip(n, i, j);
    case _ =>
  }

  // ----- Java int width -----

  /** Largest Java `int`. */
  const IntMax: int := 0x7fff_ffff

  /** For divisions of at most 46340 teams, every intermediate value of
      `convertGV` and of the vertex counts of `buildFNG` fits in a Java
      `int`, so the unbounded arithmetic of this model is exact there. The
      products the Java code forms are `(2n - i - 1) * i`, which is
      2 * RowStart(n, i) (RowStartClosedForm), and `n * (n - 1)`, which is
      2 * GameCount(n) (GameCountClosedForm). */
  lemma NumberingFitsInInt(n: nat, i: nat)
    requires i < n <= 46340
    ensures 2 * RowStart(n, i) + n <= IntMax
    ensures 2 * GameCount(n) <= IntMax
    ensures VertexCount(n) <= IntMax
  {
    RowStartClosedForm(n, i);
    GameCountClosedForm(n);
    SquareBound(n);
    ProductBelowSquare(n, i);
    ProductBelowSquare(n, n - 1);
  }

  lemma SquareBound(n: nat)
    requires n <= 46340
    ensures n * n <= 46340 * 46340
  {
    MulMonotone(n, 46340, n);
    MulMonotone(n, 46340, 46340);
  }

  lemma {:induction false} MulMonotone(a: nat, b: nat, c: nat)
    requires a <= b
    ensures a * c <= b * c
  {
    if c > 0 {
      MulMonotone(a, b, c - 1);
      assert a * c == a * (c - 1) + a;
      assert b * c == b * (c - 1) + b;
    }
  }

  lemma ProductBelowSquare(n: nat, i: nat)
    requires i < n
    ensures (n * 2 - i - 1) * i <= n * n
  {
    assert n * n - (n * 2 - i - 1) * i == (n - i) * (n - i) + i;
  }
}
