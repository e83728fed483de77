/** The division: parallel per-team sequences indexed by the list of team
    names, the name-taking accessors, and the league-wide count of remaining
    games. */
module Standings {
  import opened Results

  /** The one error a query reports: a team name the division does not know. */
  datatype Error = InvalidTeam

  /** A division as the constructor leaves it. Team `i` is `teams[i]`, with
      `win[i]` wins, `loss[i]` losses, `remain[i]` games left, and
      `against[i][j]` games left against team `j`. */
  datatype Division = Division(
    teams: seq<string>,
    win: seq<int>,
    loss: seq<int>,
    remain: seq<int>,
    against: seq<seq<int>>)
  {
    /** Number of teams (`numberOfTeams`). */
    function Size(): nat
    {
      |teams|
    }

    /** Every per-team sequence has one entry per team and `against` is n by n. */
    predicate WellFormed()
    {
      && |win| == |teams|
      && |loss| == |teams|
      && |remain| == |teams|
      && Square(against)
      && |against| == |teams|
    }
  }

  /** An n by n matrix. */
  predicate Square(g: seq<seq<int>>)
  {
    forall i :: 0 <= i < |g| ==> |g[i]| == |g|
  }

  /** `i` is the position of the first occurrence of `name` in `names`. */
  ghost predicate FirstAt(names: seq<string>, name: string, i: int)
  {
    && 0 <= i < |names|
    && names[i] == name
    && forall j :: 0 <= j < i ==> names[j] != name
  }

  /** Position of the first occurrence of `name`, or None when it is absent
      (`contains` followed by `indexOf`). */
  function IndexOf(names: seq<string>, name: string): (r: Option<nat>)
    ensures r.None? <==> name !in names
    ensures r.Some? ==> FirstAt(names, name, r.value)
  {
    if |names| == 0 then None
    else if names[0] == name then Some(0)
    else match IndexOf(names[1..], name)
      case None => None
      case Some(i) => Some(i + 1)
  }

  /** The entry of `column` that belongs to `team`, shared by the one-name accessors. */
  function Lookup(names: seq<string>, column: seq<int>, team: string): (r: Result<int, Error>)
    requires |column| == |names|
    ensures r.Failure? <==> team !in names
    ensures forall i :: FirstAt(names, team, i) ==> r == Success(column[i])
  {
    match IndexOf(names, team)
    case None => Failure(InvalidTeam)
    case Some(i) => Success(column[i])
  }

  /** Number of wins of `team`. */
  function Wins(d: Division, team: string): (r: Result<int, Error>)
    requires d.WellFormed()
    ensures r.Failure? <==> team !in d.teams
    ensures forall i :: FirstAt(d.teams, team, i) ==> r == Success(d.win[i])
  {
    Lookup(d.teams, d.win, team)
  }

  /** Number of losses of `team`. */
  function Losses(d: Division, team: string): (r: Result<int, Error>)
    requires d.WellFormed()
    ensures r.Failure? <==> team !in d.teams
    ensures forall i :: FirstAt(d.teams, team, i) ==> r == Success(d.loss[i])
  {
    Lookup(d.teams, d.loss, team)
  }

  /** Number of games `team` has left to play. */
  function Remaining(d: Division, team: string): (r: Result<int, Error>)
    requires d.WellFormed()
    ensures r.Failure? <==> team !in d.teams
    ensures forall i :: FirstAt(d.teams, team, i) ==> r == Success(d.remain[i])
  {
    Lookup(d.teams, d.remain, team)
  }

  /** Number of games left between `team1` and `team2`; fails if either name is unknown. */
  function Against(d: Division, team1: string, team2: string): (r: Result<int, Error>)
    requires d.WellFormed()
    ensures r.Failure? <==> team1 !in d.teams || team2 !in d.teams
    ensures forall i, j :: FirstAt(d.teams, team1, i) && FirstAt(d.teams, team2, j) ==>
      r == Success(d.against[i][j])
  {
    match (IndexOf(d.teams, team1), IndexOf(d.teams, team2))
    case (Some(i), Some(j)) => Success(d.against[i][j])
    case _ => Failure(InvalidTeam)
  }

  // ----- The league-wide number of remaining games (`remainAll`) -----

  /** Sum of a sequence. */
  function Sum(s: seq<int>): int
  {
    if |s| == 0 then 0 else Sum(s[..|s| - 1]) + s[|s| - 1]
  }

  /** Java's `a / 2` on `int`: the quotient rounded toward zero. */
  function HalfTowardZero(a: int): (h: int)
    ensures a >= 0 ==> 0 <= a - 2 * h <= 1
    ensures a < 0 ==> -1 <= a - 2 * h <= 0
  {
    if a >= 0 then a / 2 else -((-a) / 2)
  }

  /** Half the sum of every team's remaining games, truncated as Java's
      `/= 2` truncates. */
  function RemainAll(d: Division): (h: int)
    ensures Sum(d.remain) >= 0 ==> 2 * h <= Sum(d.remain) <= 2 * h + 1
    ensures Sum(d.remain) < 0 ==> 2 * h - 1 <= Sum(d.remain) <= 2 * h
  {
    HalfTowardZero(Sum(d.remain))
  }

  /** The schedule of the input is consistent: games between i and j are
      recorded on both rows, no team plays itself, and every remaining game
      of a team is a game against another team of the division. */
  ghost predicate DivisionGamesOnly(d: Division)
    requires d.WellFormed()
  {
    && (forall i, j :: 0 <= i < |d.teams| && 0 <= j < |d.teams| ==> d.against[i][j] == d.against[j][i])
    && (forall i :: 0 <= i < |d.teams| ==> d.against[i][i] == 0)
    && (forall i :: 0 <= i < |d.teams| ==> d.remain[i] == Sum(d.against[i]))
  }

  /** Sum of column `j` over the first `m` rows. */
  function ColumnSum(g: seq<seq<int>>, j: nat, m: nat): int
    requires Square(g) && j < |g| && m <= |g|
  {
    if m == 0 then 0 else ColumnSum(g, j, m - 1) + g[m - 1][j]
  }

  /** Sum of `g[i][j]` over the pairs `i < j < k`: games between the first k teams. */
  function PairSum(g: seq<seq<int>>, k: nat): int
    requires Square(g) && k <= |g|
  {
    if k == 0 then 0 else PairSum(g, k - 1) + ColumnSum(g, k - 1, k - 1)
  }

  /** Sum of the first `m` entries of each of the first `k` rows. */
  function BlockSum(g: seq<seq<int>>, k: nat, m: nat): int
    requires Square(g) && k <= |g| && m <= |g|
  {
    if k == 0 then 0 else BlockSum(g, k - 1, m) + Sum(g[k - 1][..m])
  }

  lemma {:induction false} BlockSumWiden(g: seq<seq<int>>, k: nat, m: nat)
    requires Square(g) && k <= |g| && m < |g|
    ensures BlockSum(g, k, m + 1) == BlockSum(g, k, m) + ColumnSum(g, m, k)
  {
    if k > 0 {
      BlockSumWiden(g, k - 1, m);
      assert g[k - 1][..m + 1][..m] == g[k - 1][..m];
    }
  }

  lemma {:induction false} RowMatchesColumn(g: seq<seq<int>>, m: nat, k: nat)
    requires Square(g) && m < |g| && k <= |g|
    requires forall i, j :: 0 <= i < |g| && 0 <= j < |g| ==> g[i][j] == g[j][i]
    ensures Sum(g[m][..k]) == ColumnSum(g, m, k)
  {
    if k > 0 {
      RowMatchesColumn(g, m, k - 1);
      assert g[m][..k][..k - 1] == g[m][..k - 1];
    }
  }

  lemma {:induction false} BlockIsTwicePairs(g: seq<seq<int>>, k: nat)
    requires Square(g) && k <= |g|
    requires forall i, j :: 0 <= i < |g| && 0 <= j < |g| ==> g[i][j] == g[j][i]
    requires forall i :: 0 <= i < |g| ==> g[i][i] == 0
    ensures BlockSum(g, k, k) == 2 * PairSum(g, k)
  {
    if k > 0 {
      BlockIsTwicePairs(g, k - 1);
      BlockSumWiden(g, k - 1, k - 1);
      RowMatchesColumn(g, k - 1, k - 1);
      assert g[k - 1][..k][..k - 1] == g[k - 1][..k - 1];
    }
  }

  lemma {:induction false} RemainSumIsBlock(d: Division, k: nat)
    requires d.WellFormed() && k <= |d.teams|
    requires forall i :: 0 <= i < |d.teams| ==> d.remain[i] == Sum(d.against[i])
    ensures Sum(d.remain[..k]) == BlockSum(d.against, k, |d.teams|)
  {
    if k > 0 {
      RemainSumIsBlock(d, k - 1);
      assert d.remain[..k][..k - 1] == d.remain[..k - 1];
      assert d.against[k - 1][..|d.teams|] == d.against[k - 1];
    }
  }

  /** When every remaining game is a division game recorded symmetrically,
      `remainAll` is exactly the number of games left league-wide: each game
      between i and j counted once. */
  lemma RemainAllCountsEachGameOnce(d: Division)
    requires d.WellFormed() && DivisionGamesOnly(d)
    ensures RemainAll(d) == PairSum(d.against, |d.teams|)
  {
    RemainSumIsBlock(d, |d.teams|);
    assert d.remain[..|d.teams|] == d.remain;
    BlockIsTwicePairs(d.against, |d.teams|);
  }
}
