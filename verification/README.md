# Baseball elimination, modelled in Dafny

This project models `BaseballElimination`. That class decides whether a team
of a division is mathematically eliminated from first place, and it produces
a certificate: a set of teams that proves the elimination. It has five parts,
and each has a module here.

- **Division model** (`Standings`, in `standings.dfy`). A division is an
  immutable record of parallel sequences `win`, `loss`, `remain` and
  `against`, indexed by the list of team names. Each name-taking accessor
  resolves the name to its first occurrence, as `contains`/`indexOf` do. An
  unknown name gives `Failure(InvalidTeam)`, which stands for the
  `IllegalArgumentException`. The accessors are pure functions, so they change
  nothing. `numberOfTeams()` is `Division.Size()` and `teams()` is the `teams`
  field. `remainAll` is `RemainAll`, which uses Java's truncating `/ 2`.
- **Vertex numbering** (`Numbering`, in `numbering.dfy`). `convertGV` is
  `ConvertGV`, written with the Java code's own triangular formula. It is proved
  equal to `GameVertex`, a reference numbering built on `RowStart`: the
  number of pairs in the rows before row i. The network is built with
  `GameVertex`, so the proofs about it avoid non-linear arithmetic. In the
  same way `gameV` is the pair count `GameCount`, proved equal to the
  Java code's `n * (n - 1) / 2`. Vertex 0 is the source. Game ids run from 1 to
  `gameV`. Team k has id `k + gameV + 1`, and the sink has id `V - 1`.
  `Encode` and `Decode` turn the numbering into a bijection between vertex
  kinds and ids.
- **Network builder** (`FlowNetworks`, in `network.dfy`). `buildFNG(x)` is
  `Build`, a pure function. It returns the edge list together with `V`,
  `gameV`, the source and the sink, which the Java code kept in fields.
  Capacities are `Finite(n)` or `Unbounded`. The loop order of the Java code is
  kept: `Pairs` lists the pairs the nested loop visits, and `Others` lists the
  teams the sink loop visits.
- **Trivial scan, decision and certificate** (`Elimination`, in
  `elimination.dfy`). The max-flow library is a parameter
  `solve: Network -> MaxFlow`. It reports the flow on each edge, by its
  position in the edge list, and min-cut membership for each vertex id.
  `IsEliminated` and `Certificate` are the two public queries.
- `Results` (in `results.dfy`) holds the `Option` and `Result` types. `None`
  stands for the Java code's `null`.

## Model

| member | source | states |
|---|---|---|
| `Standings.IndexOf` | src/BaseballElimination.java:64-66 | None exactly when the name is absent; otherwise the position of its first occurrence |
| `Standings.Wins` | src/BaseballElimination.java:62-68 | fails exactly when the name is unknown; otherwise the wins at the name's first occurrence |
| `Standings.Losses` | src/BaseballElimination.java:70-76 | fails exactly when the name is unknown; otherwise the losses at the name's first occurrence |
| `Standings.Remaining` | src/BaseballElimination.java:78-84 | fails exactly when the name is unknown; otherwise the remaining games at the name's first occurrence |
| `Standings.Against` | src/BaseballElimination.java:86-93 | fails exactly when either name is unknown; otherwise `g[i][j]` at the two names' first occurrences |
| `Standings.HalfTowardZero` | src/BaseballElimination.java:49 | Java's `/ 2`: the remainder is 0 or 1 with the sign of the dividend |
| `Standings.RemainAll` | src/BaseballElimination.java:34-49 | `remainAll` is half the total of the remaining games, rounded toward zero as Java's `/= 2` rounds: twice it is the total, or one less for an odd non-negative total, or one more for an odd negative total |
| `Standings.RemainAllCountsEachGameOnce` | src/BaseballElimination.java:34-49 | if the schedule is symmetric, has a zero diagonal and every remaining game is a division game, then `remainAll` equals the sum of `g[i][j]` over pairs i < j |
| `Numbering.RowStartClosedForm` | src/BaseballElimination.java:99-101 | `(2n - i - 1) * i` is twice the number of pairs in the rows before row i |
| `Numbering.ConvertGV` | src/BaseballElimination.java:95-102 | the Java code's closed form equals the reference numbering `GameVertex` (the pairs of the rows before the smaller team's row, plus the offset in that row), and it does not depend on the order of the pair |
| `Numbering.GameVertexRange` | src/BaseballElimination.java:95-107 | a pair of distinct teams gets an id in `1 .. gameV` |
| `Numbering.GameVertexInjective` | src/BaseballElimination.java:95-102 | distinct pairs i < j get distinct ids |
| `Numbering.GamePairRoundTrip` | src/BaseballElimination.java:95-102 | `GamePair` inverts `convertGV` on pairs i < j, and every id in `1 .. gameV` has a pair, so the game ids are dense |
| `Numbering.GameCountClosedForm` | src/BaseballElimination.java:107 | `gameV = n(n-1)/2` is the number of unordered pairs of n teams, counted one team at a time |
| `Numbering.Decode` | src/BaseballElimination.java:107-111 | an id denotes a vertex exactly when it is below `V`, and it is that vertex's id, so the ids are dense; the ids `gameV + 1 .. V - 2` that the certificate scan walks are exactly the team vertices, id `a` being team `a - gameV - 1` |
| `Numbering.DecodeEncode` | src/BaseballElimination.java:107-119 | decoding an encoded vertex gives it back, so the source, game, team and sink ids are pairwise distinct |
| `Numbering.NumberingFitsInInt` | src/BaseballElimination.java:99-109 | for at most 46340 teams, `2 * RowStart(n, i) + n` fits in a Java `int`; by `RowStartClosedForm` that bounds the product `(2n - i - 1) * i` and the sums `convertGV` forms; so do `n * (n - 1)`, which is `2 * gameV`, and `V` |
| `FlowNetworks.Pairs` | src/BaseballElimination.java:114-116 | lists exactly the pairs k < j < n with neither equal to x, in strictly increasing loop order |
| `FlowNetworks.Others` | src/BaseballElimination.java:122-123 | lists exactly the teams other than x, in increasing order; there are n - 1 of them |
| `FlowNetworks.PairsCount` | src/BaseballElimination.java:114-116 | the loops visit `C(n-1, 2)` pairs |
| `FlowNetworks.Build` | src/BaseballElimination.java:105-129 | `V = 2 + n + gameV` vertices with source 0 and sink `V - 1`, `gameV = n(n-1)/2`, and `3 * C(n-1, 2) + (n - 1)` edges; which edges they are is stated by `BuildEdgesSound`, `BuildEdgesComplete` and `BuildEdgesDistinct` |
| `FlowNetworks.BuildGameEdgeAt` | src/BaseballElimination.java:117-119 | edges 3p, 3p+1 and 3p+2 are source→game with capacity `g[k][j]`, then game→team(k) and game→team(j), both unbounded |
| `FlowNetworks.BuildEdgesSound` | src/BaseballElimination.java:114-126 | every added edge is one an independent description allows, read from the decoded endpoints: source→game(k, j) with capacity `g[k][j]`, game(k, j)→team k or j unbounded, team j→sink with capacity `win[x] + r[x] - win[j]`, never involving x |
| `FlowNetworks.BuildEdgesComplete` | src/BaseballElimination.java:114-126 | every edge that description allows is added |
| `FlowNetworks.BuildEdgesDistinct` | src/BaseballElimination.java:114-126 | no edge is added twice |
| `FlowNetworks.BuildWellFormed` | src/BaseballElimination.java:107-126 | source and sink are distinct vertices, every endpoint is below `V`, and no edge enters the source |
| `FlowNetworks.QueriedTeamIsolated` | src/BaseballElimination.java:114-126 | no edge touches the vertex of team x |
| `FlowNetworks.QueriedPairIsolated` | src/BaseballElimination.java:116 | no edge touches the game vertex of a pair that involves x |
| `Elimination.TrivialRival` | src/BaseballElimination.java:139-145 | Some(i) is the lowest i ≠ x with `win[x] + r[x] < win[i]`; None exactly when there is no such i |
| `Elimination.TrivialRivalIsLowest` | src/BaseballElimination.java:139-145 | the scan returns i exactly when i is the lowest-numbered team out of x's reach |
| `Elimination.TrivialScanGuardsCapacities` | src/BaseballElimination.java:122-145 | the scan finds no rival exactly when every team→sink capacity `buildFNG(x)` would emit is non-negative |
| `Elimination.BuiltCapacitiesNonNegative` | src/BaseballElimination.java:114-126 | after the scan, and with non-negative game counts, every finite capacity is non-negative |
| `Elimination.IsEliminated` | src/BaseballElimination.java:131-136 | fails exactly when the name is unknown; otherwise it decides for the first team of that name |
| `Elimination.EliminatedAt` | src/BaseballElimination.java:139-152 | a team some other team is out of reach of (`win[x] + r[x] < win[i]`) is eliminated whatever the max-flow library reports, and with one team the answer is "not eliminated" |
| `Elimination.SourceAdjacency` | src/BaseballElimination.java:148 | the edges in `adj(s)` are exactly those at positions 3p of the edge list |
| `Elimination.SourceDeficit` | src/BaseballElimination.java:148-151 | the scan of the source's edges reports true exactly when some source edge carries less flow than its capacity |
| `Elimination.DeficitFrom` | src/BaseballElimination.java:148-151 | the scan from edge i onward reports true exactly when some source edge at position i or later is below capacity |
| `Elimination.FlowDecision` | src/BaseballElimination.java:146-152 | on the flow path, x is eliminated iff some pair's source edge carries less flow than the games left between the two teams |
| `Elimination.DeficitIffFlowBelowCapacity` | src/BaseballElimination.java:148-151 | with feasible source flows, some source edge is unsaturated iff the flow out of the source is below the capacity out of the source |
| `Elimination.FlowBelowCapacityDecision` | src/BaseballElimination.java:146-152 | with a feasible flow, x is eliminated on the flow path iff the flow out of the source is below the capacity out of the source |
| `Elimination.SourceCapacityIsGamesLeft` | src/BaseballElimination.java:114-126 | the capacity out of the source is the sum of `g[k][j]` over the pairs k < j of teams other than x, i.e. the games left among them |
| `Elimination.FlowValueDecision` | src/BaseballElimination.java:146-152 | on the flow path, x is eliminated iff the flow out of the source is below the sum of `g[k][j]` over the pairs of teams other than x, the games left among them |
| `Elimination.CutTeams` | src/BaseballElimination.java:179-183 | exactly the teams whose vertex is in the cut, in increasing order, and only team indices |
| `Elimination.Certificate` | src/BaseballElimination.java:157-161 | fails exactly when the name is unknown; otherwise it gives the certificate of the first team of that name |
| `Elimination.CertificateAt` | src/BaseballElimination.java:164-190 | a certificate is present exactly when the team is eliminated; a trivially beaten team gets the one-team certificate naming the lowest-numbered team it cannot catch; on the flow path the certificate lists the names of the teams whose vertices are in the cut, one entry per such team, in index order |
| `Elimination.FlowCertificateNonEmpty` | src/BaseballElimination.java:175-184 | if the cut contains the source and is closed along residual edges, a team eliminated on the flow path gets a non-empty certificate |

## Left out

- File parsing in the constructor (src/BaseballElimination.java:16-48) is I/O. A division is given as an already built record. `WellFormed` asks for one entry per team in every sequence and an n-by-n `against`.
- Truncated input: the reading loop is guarded by `in.hasNextLine()`, which still holds when only a line break is left, so a file that ends early, or a row cut off mid-line, normally reaches `readString`/`readInt` with no token left and throws `NoSuchElementException`. Reading stops quietly with fewer names than `numberOfTeams` only when the last complete row has no line break after it. The model always has one name per team. A zero team count is accepted: the division is empty and every query fails with `InvalidTeam`.
- `FlowNetwork`, `FlowEdge` and `FordFulkerson` are library classes whose source is not part of this model. Max-flow optimality and min-cut correctness are not modelled. Their results enter as the `solve` parameter.
- Elimination.FlowCertificateNonEmpty: it assumes only that the cut contains the source and is closed along residual edges. It does not prove that `inCut` is false for team x's own vertex. That vertex has no edges (`QueriedTeamIsolated`), but the scan reports whatever `inCut` says for it.
- The certificate's combinatorial meaning is not modelled: its teams' wins plus their games among themselves exceed x's ceiling. Proving that needs max-flow/min-cut duality.
- Flow values are integers. The library stores flows and capacities as `double`, and `Double.POSITIVE_INFINITY` becomes the `Unbounded` capacity.
- Java `int` overflow is not modelled. `NumberingFitsInInt` shows the vertex arithmetic stays in range for up to 46340 teams. The sums `win[x] + r[x] - win[j]` and `remainAll` are treated as unbounded.
- The library's rejection of negative capacities is not modelled. `BuiltCapacitiesNonNegative` shows when that rejection cannot arise.
- The order of `fn.adj(s)` is not modelled, because the decision and the certificate do not depend on which unsaturated edge is found first.
- `main` and the printing in it (src/BaseballElimination.java:194-208) are presentation only.

Modelling choices that follow the code:

- Lookup is a linear first-occurrence scan, not a map.
- The sink capacity is emitted as `win[x] + r[x] - win[j]`, not clamped at zero. Instead, `TrivialScanGuardsCapacities` proves it is never negative once the trivial scan passes.
- `null` is returned for a team that is not eliminated; it is `None` here.
