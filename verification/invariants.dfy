/** The consistency conditions the store keeps between its tables, and the
    facts about appending one guess-log row that the transitions rely on. */
module Invariants {
  import opened Options
  import opened Tables

  /** The puzzle table is listed in ascending `puzzle_id` order. */
  predicate PuzzleIdsAscending(puzzles: seq<Puzzle>) {
    forall i, j :: 0 <= i < j < |puzzles| ==> puzzles[i].id < puzzles[j].id
  }

  /** At most one response rule per (puzzle, normalised guess). */
  predicate ResponsesUnique(responses: seq<Response>) {
    forall i, j :: 0 <= i < j < |responses| ==>
      responses[i].puzzleId != responses[j].puzzleId || responses[i].guess != responses[j].guess
  }

  predicate TeamIdsDistinct(teams: seq<Team>) {
    forall i, j :: 0 <= i < j < |teams| ==> teams[i].id != teams[j].id
  }

  /** Every team id was issued by the serial counter. */
  predicate TeamIdsIssued(h: Hunt) {
    forall i :: 0 <= i < |h.teams| ==> h.teams[i].id < h.nextTeamId
  }

  predicate SolversOnTeams(h: Hunt) {
    forall i :: 0 <= i < |h.solvers| ==> FindTeam(h.teams, h.solvers[i].teamId).Some?
  }

  predicate LogOnTeams(h: Hunt) {
    forall i :: 0 <= i < |h.log| ==> FindTeam(h.teams, h.log[i].teamId).Some?
  }

  /** Membership uniqueness: no identity has two solver rows. */
  predicate OneSolverPerIdentity(solvers: seq<Solver>) {
    forall i, j :: 0 <= i < j < |solvers| ==> solvers[i].identity != solvers[j].identity
  }

  /** Each live team has exactly one captain; a deleted team has none. */
  predicate OneCaptainPerLiveTeam(h: Hunt) {
    forall i :: 0 <= i < |h.teams| ==>
      CaptainCount(h.solvers, h.teams[i].id) == if h.teams[i].isDeleted then 0 else 1
  }

  /** At most one `correct` row per (team, puzzle). */
  predicate OneCorrectPerPuzzle(log: seq<LogRow>) {
    forall i, j :: 0 <= i < j < |log| && log[i].status == Correct && log[j].status == Correct ==>
      log[i].teamId != log[j].teamId || log[i].puzzleId != log[j].puzzleId
  }

  /** `score` is the sum of `points` over the puzzles the team solved. */
  predicate ScoresMatchLog(h: Hunt) {
    forall i :: 0 <= i < |h.teams| ==> h.teams[i].score == SolvedPoints(h.puzzles, h.log, h.teams[i].id)
  }

  /** `num_guesses` is 50 less the team's logged incorrect guesses. */
  predicate QuotasMatchLog(h: Hunt) {
    forall i :: 0 <= i < |h.teams| ==>
      h.teams[i].numGuesses == InitialGuesses - Count(h.log, IncorrectBy(h.teams[i].id))
  }

  /** `is_hunt_solved` holds exactly when a final puzzle was solved, and
      `hunt_solve_time` is set exactly when `is_hunt_solved` holds. */
  predicate HuntFlagsMatchLog(h: Hunt) {
    forall i :: 0 <= i < |h.teams| ==>
      && (h.teams[i].isHuntSolved <==> FinalSolved(h.puzzles, h.log, h.teams[i].id))
      && (h.teams[i].huntSolveTime.Some? <==> h.teams[i].isHuntSolved)
  }

  /** At most one row per (team, puzzle, normalised guess): a repeated
      guess is answered as a duplicate and not logged again. */
  predicate GuessesLoggedOnce(log: seq<LogRow>) {
    forall i, j :: 0 <= i < j < |log| ==>
      log[i].teamId != log[j].teamId || log[i].puzzleId != log[j].puzzleId || log[i].guess != log[j].guess
  }

  predicate Consistent(h: Hunt) {
    && PuzzleIdsAscending(h.puzzles)
    && ResponsesUnique(h.responses)
    && TeamIdsDistinct(h.teams)
    && TeamIdsIssued(h)
    && SolversOnTeams(h)
    && LogOnTeams(h)
    && OneSolverPerIdentity(h.solvers)
    && OneCaptainPerLiveTeam(h)
    && OneCorrectPerPuzzle(h.log)
    && GuessesLoggedOnce(h.log)
    && ScoresMatchLog(h)
    && QuotasMatchLog(h)
    && HuntFlagsMatchLog(h)
  }

  /** No team has a negative guess quota. */
  predicate QuotasNonNegative(h: Hunt) {
    forall i :: 0 <= i < |h.teams| ==> h.teams[i].numGuesses >= 0
  }

  predicate WellFormed(h: Hunt) {
    Consistent(h) && QuotasNonNegative(h)
  }

  // ---------------------------------------------------------------------
  // Lookups in a consistent store

  /** With distinct ids, the team `FindTeam` returns is the only one with
      that id. */
  lemma FindTeamUnique(teams: seq<Team>, id: nat, k: nat)
    requires TeamIdsDistinct(teams)
    requires k < |teams| && teams[k].id == id
    ensures FindTeam(teams, id) == Some(teams[k])
  {
    if k > 0 && teams[0].id != id {
      assert TeamIdsDistinct(teams[1..]) by {
        forall i, j | 0 <= i < j < |teams| - 1 ensures teams[1..][i].id != teams[1..][j].id {
          assert teams[1..][i] == teams[i + 1] && teams[1..][j] == teams[j + 1];
        }
      }
      FindTeamUnique(teams[1..], id, k - 1);
    }
  }

  /** In a consistent store, `identity` has a membership exactly when it
      has a solver row, and the membership is that row with its team. */
  lemma MembershipIsSolverRow(h: Hunt, identity: string, k: nat)
    requires Consistent(h)
    requires k < |h.solvers| && h.solvers[k].identity == identity
    ensures MembershipOf(h, identity).Some?
    ensures MembershipOf(h, identity).value.solver == h.solvers[k]
  {
    var m := MembershipOf(h, identity);
    if m.None? {
      assert false;
    }
    var j :| 0 <= j < |h.solvers| && h.solvers[j] == m.value.solver;
    assert j == k;
  }

  lemma NoMembershipNoRow(h: Hunt, identity: string)
    requires Consistent(h)
    requires MembershipOf(h, identity).None?
    ensures forall i :: 0 <= i < |h.solvers| ==> h.solvers[i].identity != identity
  {
  }

  /** The team of a membership is the store's row for that team id. */
  lemma MembershipTeamInTable(h: Hunt, m: Membership) returns (k: nat)
    requires Consistent(h)
    requires FindTeam(h.teams, m.solver.teamId) == Some(m.team)
    ensures k < |h.teams| && h.teams[k] == m.team
    ensures forall i :: 0 <= i < |h.teams| && h.teams[i].id == m.team.id ==> i == k
  {
    k :| 0 <= k < |h.teams| && h.teams[k] == m.team;
  }

  // ---------------------------------------------------------------------
  // Appending one log row

  lemma {:induction false} CountAppend(log: seq<LogRow>, row: LogRow, q: Query)
    ensures Count(log + [row], q) == Count(log, q) + (if Matches(q, row) then 1 else 0)
  {
    if |log| > 0 {
      assert (log + [row])[1..] == log[1..] + [row];
      CountAppend(log[1..], row, q);
    } else {
      assert log + [row] == [row];
    }
  }

  lemma HasSolvedAppend(log: seq<LogRow>, row: LogRow, teamId: nat, puzzleId: nat)
    ensures HasSolved(log + [row], teamId, puzzleId) <==>
      HasSolved(log, teamId, puzzleId) || Matches(CorrectFor(teamId, puzzleId), row)
  {
    CountAppend(log, row, CorrectFor(teamId, puzzleId));
  }

  /** A row that is not a `correct` row of the team leaves its points alone. */
  lemma {:induction false} SolvedPointsOtherRow(puzzles: seq<Puzzle>, log: seq<LogRow>, row: LogRow, teamId: nat)
    requires row.teamId != teamId || row.status != Correct
    ensures SolvedPoints(puzzles, log + [row], teamId) == SolvedPoints(puzzles, log, teamId)
  {
    if |puzzles| > 0 {
      HasSolvedAppend(log, row, teamId, puzzles[0].id);
      SolvedPointsOtherRow(puzzles[1..], log, row, teamId);
    }
  }

  /** A correct row for a puzzle absent from `puzzles` leaves the sum alone. */
  lemma {:induction false} SolvedPointsAbsentPuzzle(puzzles: seq<Puzzle>, log: seq<LogRow>, row: LogRow, teamId: nat)
    requires forall i :: 0 <= i < |puzzles| ==> puzzles[i].id != row.puzzleId
    ensures SolvedPoints(puzzles, log + [row], teamId) == SolvedPoints(puzzles, log, teamId)
  {
    if |puzzles| > 0 {
      HasSolvedAppend(log, row, teamId, puzzles[0].id);
      SolvedPointsAbsentPuzzle(puzzles[1..], log, row, teamId);
    }
  }

  /** The first correct row of the team for puzzle `p` adds `p`'s points. */
  lemma {:induction false} SolvedPointsFirstSolve(puzzles: seq<Puzzle>, log: seq<LogRow>, row: LogRow, p: Puzzle)
    requires PuzzleIdsAscending(puzzles)
    requires FindPuzzle(puzzles, row.puzzleId) == Some(p)
    requires row.status == Correct
    requires !HasSolved(log, row.teamId, row.puzzleId)
    ensures SolvedPoints(puzzles, log + [row], row.teamId) == SolvedPoints(puzzles, log, row.teamId) + p.points
  {
    HasSolvedAppend(log, row, row.teamId, puzzles[0].id);
    if puzzles[0].id == row.puzzleId {
      SolvedPointsAbsentPuzzle(puzzles[1..], log, row, row.teamId);
    } else {
      SolvedPointsFirstSolve(puzzles[1..], log, row, p);
    }
  }

  lemma FinalSolvedAppend(puzzles: seq<Puzzle>, log: seq<LogRow>, row: LogRow, teamId: nat)
    ensures FinalSolved(puzzles, log + [row], teamId) <==>
      || FinalSolved(puzzles, log, teamId)
      || (row.teamId == teamId && row.status == Correct &&
          exists k :: 0 <= k < |puzzles| && puzzles[k].isFinal && puzzles[k].id == row.puzzleId)
  {
    forall k | 0 <= k < |puzzles| {
      HasSolvedAppend(log, row, teamId, puzzles[k].id);
    }
  }

  /** A team with no log rows has solved nothing. */
  lemma {:induction false} SolvedPointsNoRows(puzzles: seq<Puzzle>, log: seq<LogRow>, teamId: nat)
    requires forall i :: 0 <= i < |log| ==> log[i].teamId != teamId
    ensures SolvedPoints(puzzles, log, teamId) == 0
    ensures !FinalSolved(puzzles, log, teamId)
    ensures Count(log, IncorrectBy(teamId)) == 0
  {
    if |puzzles| > 0 {
      SolvedPointsNoRows(puzzles[1..], log, teamId);
    }
  }

  /** In a consistent store, a team's correct rows for one puzzle number at
      most one. */
  lemma {:induction false} AtMostOneCorrectRow(log: seq<LogRow>, teamId: nat, puzzleId: nat)
    requires OneCorrectPerPuzzle(log)
    ensures Count(log, CorrectFor(teamId, puzzleId)) <= 1
  {
    if |log| > 0 {
      assert OneCorrectPerPuzzle(log[1..]) by {
        forall i, j | 0 <= i < j < |log| - 1
          ensures log[1..][i].status == Correct && log[1..][j].status == Correct ==>
            log[1..][i].teamId != log[1..][j].teamId || log[1..][i].puzzleId != log[1..][j].puzzleId
        {
          assert log[1..][i] == log[i + 1] && log[1..][j] == log[j + 1];
        }
      }
      AtMostOneCorrectRow(log[1..], teamId, puzzleId);
    }
  }

  /** In a consistent store, a team has at most one row for a given
      normalised guess on a given puzzle. */
  lemma {:induction false} GuessLoggedAtMostOnce(log: seq<LogRow>, teamId: nat, puzzleId: nat, guess: string)
    requires GuessesLoggedOnce(log)
    ensures Count(log, GuessFor(teamId, puzzleId, guess)) <= 1
  {
    if |log| > 0 {
      var q := GuessFor(teamId, puzzleId, guess);
      if Matches(q, log[0]) {
        forall j | 0 <= j < |log| - 1 ensures !Matches(q, log[1..][j]) {
          assert log[1..][j] == log[j + 1];
        }
      } else {
        assert GuessesLoggedOnce(log[1..]) by {
          forall i, j | 0 <= i < j < |log| - 1
            ensures log[1..][i].teamId != log[1..][j].teamId || log[1..][i].puzzleId != log[1..][j].puzzleId
              || log[1..][i].guess != log[1..][j].guess
          {
            assert log[1..][i] == log[i + 1] && log[1..][j] == log[j + 1];
          }
        }
        GuessLoggedAtMostOnce(log[1..], teamId, puzzleId, guess);
      }
    }
  }
}
