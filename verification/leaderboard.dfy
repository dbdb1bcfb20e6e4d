/** The leaderboard query (main.py, `display_leaderboard`): the teams not
    deleted, ordered by `hunt_solve_time` ascending with NULLs last, then
    `score` descending, then `last_solve_time` ascending, and numbered
    1, 2, ... in that order. */
module Leaderboard {
  import opened Options
  import opened Tables

  /** Strictly earlier hunt finish; an unfinished hunt (NULL) sorts last. */
  predicate FinishedEarlier(a: Option<int>, b: Option<int>) {
    || (a.Some? && b.None?)
    || (a.Some? && b.Some? && a.value < b.value)
  }

  /** `a` may be listed above `b` under the ORDER BY clause. */
  predicate RanksAbove(a: Team, b: Team) {
    || FinishedEarlier(a.huntSolveTime, b.huntSolveTime)
    || (&& a.huntSolveTime == b.huntSolveTime
        && (a.score > b.score || (a.score == b.score && a.lastSolveTime <= b.lastSolveTime)))
  }

  lemma RanksAboveTotal(a: Team, b: Team)
    ensures RanksAbove(a, b) || RanksAbove(b, a)
  {
  }

  lemma RanksAboveTransitive(a: Team, b: Team, c: Team)
    requires RanksAbove(a, b) && RanksAbove(b, c)
    ensures RanksAbove(a, c)
  {
  }

  predicate Ordered(ts: seq<Team>) {
    forall i, j :: 0 <= i < j < |ts| ==> RanksAbove(ts[i], ts[j])
  }

  /** `WHERE is_deleted = FALSE`, in storage order. */
  function LiveTeams(teams: seq<Team>): (r: seq<Team>)
    ensures forall t :: t in r <==> t in teams && !t.isDeleted
    ensures forall i :: 0 <= i < |r| ==> !r[i].isDeleted
  {
    if |teams| == 0 then []
    else if teams[0].isDeleted then LiveTeams(teams[1..])
    else [teams[0]] + LiveTeams(teams[1..])
  }

  lemma PrependOrdered(t: Team, ts: seq<Team>)
    requires Ordered(ts)
    requires forall k :: 0 <= k < |ts| ==> RanksAbove(t, ts[k])
    ensures Ordered([t] + ts)
  {
    var r := [t] + ts;
    forall i, j | 0 <= i < j < |r| ensures RanksAbove(r[i], r[j]) {
      assert r[j] == ts[j - 1];
      if i > 0 {
        assert r[i] == ts[i - 1];
      }
    }
  }

  lemma OrderedTail(ts: seq<Team>)
    requires Ordered(ts) && |ts| > 0
    ensures Ordered(ts[1..])
    ensures forall y :: y in ts[1..] ==> RanksAbove(ts[0], y)
  {
    forall i, j | 0 <= i < j < |ts| - 1 ensures RanksAbove(ts[1..][i], ts[1..][j]) {
      assert ts[1..][i] == ts[i + 1] && ts[1..][j] == ts[j + 1];
    }
    forall y | y in ts[1..] ensures RanksAbove(ts[0], y) {
      var k :| 0 <= k < |ts| - 1 && ts[1..][k] == y;
      assert ts[1..][k] == ts[k + 1];
    }
  }

  /** Insert `t` into an ordered list, above the first team it ranks above. */
  function Insert(t: Team, ts: seq<Team>): (r: seq<Team>)
    requires Ordered(ts)
    ensures Ordered(r)
    ensures |r| == |ts| + 1
    ensures multiset(r) == multiset(ts) + multiset{t}
    ensures forall y :: y in r ==> y == t || y in ts
  {
    if |ts| == 0 then [t]
    else if RanksAbove(t, ts[0]) then
      assert forall k :: 0 <= k < |ts| ==> RanksAbove(t, ts[k]) by {
        forall k | 0 <= k < |ts| ensures RanksAbove(t, ts[k]) {
          if k > 0 {
            RanksAboveTransitive(t, ts[0], ts[k]);
          }
        }
      }
      PrependOrdered(t, ts);
      [t] + ts
    else
      RanksAboveTotal(t, ts[0]);
      OrderedTail(ts);
      var rest := Insert(t, ts[1..]);
      assert forall k :: 0 <= k < |rest| ==> RanksAbove(ts[0], rest[k]) by {
        forall k | 0 <= k < |rest| ensures RanksAbove(ts[0], rest[k]) {
          assert rest[k] in rest;
        }
      }
      PrependOrdered(ts[0], rest);
      assert ts == [ts[0]] + ts[1..];
      [ts[0]] + rest
  }

  function SortTeams(ts: seq<Team>): (r: seq<Team>)
    ensures Ordered(r)
    ensures |r| == |ts|
    ensures multiset(r) == multiset(ts)
  {
    if |ts| == 0 then []
    else
      assert ts == [ts[0]] + ts[1..];
      Insert(ts[0], SortTeams(ts[1..]))
  }

  datatype Standing = Standing(rank: nat, team: Team)

  function TeamsOf(rows: seq<Standing>): seq<Team> {
    seq(|rows|, i requires 0 <= i < |rows| => rows[i].team)
  }

  /** The leaderboard rows: the live teams, ordered, ranked 1..n. */
  function Standings(teams: seq<Team>): (rows: seq<Standing>)
    ensures |rows| == |LiveTeams(teams)|
    ensures forall i :: 0 <= i < |rows| ==> rows[i].rank == i + 1
    ensures Ordered(TeamsOf(rows))
    ensures multiset(TeamsOf(rows)) == multiset(LiveTeams(teams))
  {
    var sorted := SortTeams(LiveTeams(teams));
    var rows := seq(|sorted|, i requires 0 <= i < |sorted| => Standing(i + 1, sorted[i]));
    assert TeamsOf(rows) == sorted;
    rows
  }

  /** The "Hunt Finish" column is shown only if some listed team finished. */
  predicate ShowHuntFinish(rows: seq<Standing>) {
    exists i :: 0 <= i < |rows| && rows[i].team.isHuntSolved
  }

  /** The "Hunt Finish" column is shown exactly when some team that is not
      deleted has finished the hunt. */
  lemma HuntFinishColumnShown(teams: seq<Team>)
    ensures ShowHuntFinish(Standings(teams)) <==> exists t :: t in teams && !t.isDeleted && t.isHuntSolved
  {
    var rows := Standings(teams);
    if ShowHuntFinish(rows) {
      var i :| 0 <= i < |rows| && rows[i].team.isHuntSolved;
      assert TeamsOf(rows)[i] == rows[i].team;
      StandingsListLiveTeams(teams, rows[i].team);
    }
    if t :| t in teams && !t.isDeleted && t.isHuntSolved {
      StandingsListLiveTeams(teams, t);
      var i :| 0 <= i < |TeamsOf(rows)| && TeamsOf(rows)[i] == t;
      assert rows[i].team == t;
    }
  }

  /** The leaderboard lists exactly the teams that are not deleted. */
  lemma StandingsListLiveTeams(teams: seq<Team>, t: Team)
    ensures t in TeamsOf(Standings(teams)) <==> t in teams && !t.isDeleted
  {
    var rows := Standings(teams);
    assert t in TeamsOf(rows) <==> t in multiset(TeamsOf(rows));
    assert t in LiveTeams(teams) <==> t in multiset(LiveTeams(teams));
  }

  /** Every team that finished the hunt is listed above every team that did
      not, and earlier finishers above later ones. */
  lemma FinishersRankFirst(teams: seq<Team>, i: nat, j: nat)
    requires i < j < |Standings(teams)|
    ensures var rows := Standings(teams);
      && (rows[j].team.huntSolveTime.Some? ==> rows[i].team.huntSolveTime.Some?)
      && (rows[i].team.huntSolveTime.Some? && rows[j].team.huntSolveTime.Some? ==>
            rows[i].team.huntSolveTime.value <= rows[j].team.huntSolveTime.value)
  {
    var rows := Standings(teams);
    assert TeamsOf(rows)[i] == rows[i].team && TeamsOf(rows)[j] == rows[j].team;
  }
}
