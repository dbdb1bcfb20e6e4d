/** An accepted guess keeps the store consistent: at most one `correct` row
    per (team, puzzle), scores equal the points of solved puzzles, quotas
    equal 50 less the incorrect rows, and the hunt flags follow the final
    puzzle. With the quota guard in front, quotas also stay non-negative. */
module GuessInvariants {
  import opened Options
  import opened GuessText
  import opened Tables
  import opened Invariants
  import opened GuessEngine

  lemma FindPuzzleUnique(puzzles: seq<Puzzle>, id: nat, k: nat)
    requires PuzzleIdsAscending(puzzles)
    requires k < |puzzles| && puzzles[k].id == id
    ensures FindPuzzle(puzzles, id) == Some(puzzles[k])
  {
    var r := FindPuzzle(puzzles, id);
    var j :| 0 <= j < |puzzles| && puzzles[j] == r.value;
    assert j == k;
  }

  /** The team row a membership names is the one `RecordGuess` replaces,
      and every other row keeps its value. */
  lemma ReplaceTeamRows(h: Hunt, m: Membership, team': Team)
    requires TeamIdsDistinct(h.teams)
    requires FindTeam(h.teams, m.solver.teamId) == Some(m.team)
    requires team'.id == m.team.id
    ensures |ReplaceTeam(h.teams, team')| == |h.teams|
    ensures forall i :: 0 <= i < |h.teams| ==>
      if h.teams[i].id == m.team.id then h.teams[i] == m.team && ReplaceTeam(h.teams, team')[i] == team'
      else ReplaceTeam(h.teams, team')[i] == h.teams[i]
  {
    forall i | 0 <= i < |h.teams| && h.teams[i].id == m.team.id ensures h.teams[i] == m.team {
      FindTeamUnique(h.teams, m.team.id, i);
    }
  }

  lemma RecordKeepsTables(h: Hunt, m: Membership, team': Team, row: LogRow)
    requires TeamIdsDistinct(h.teams) && TeamIdsIssued(h) && SolversOnTeams(h) && LogOnTeams(h)
    requires OneCaptainPerLiveTeam(h)
    requires FindTeam(h.teams, m.solver.teamId) == Some(m.team)
    requires team'.id == m.team.id && team'.isDeleted == m.team.isDeleted
    requires row.teamId == m.team.id
    ensures var h' := RecordGuess(h, team', row);
      && TeamIdsDistinct(h'.teams) && TeamIdsIssued(h') && SolversOnTeams(h') && LogOnTeams(h')
      && OneCaptainPerLiveTeam(h')
  {
    ReplaceTeamRows(h, m, team');
    RecordKeepsTeamColumns(h, team', row);
    RecordKeepsReferences(h, m, team', row);
  }

  /** Replacing a row by one with the same id and deletion flag keeps the
      id and captain constraints. */
  lemma RecordKeepsTeamColumns(h: Hunt, team': Team, row: LogRow)
    requires TeamIdsDistinct(h.teams) && TeamIdsIssued(h) && OneCaptainPerLiveTeam(h)
    requires forall i :: 0 <= i < |h.teams| ==>
      ReplaceTeam(h.teams, team')[i].id == h.teams[i].id && ReplaceTeam(h.teams, team')[i].isDeleted == h.teams[i].isDeleted
    ensures var h' := RecordGuess(h, team', row);
      TeamIdsDistinct(h'.teams) && TeamIdsIssued(h') && OneCaptainPerLiveTeam(h')
  {
  }

  lemma RecordKeepsReferences(h: Hunt, m: Membership, team': Team, row: LogRow)
    requires SolversOnTeams(h) && LogOnTeams(h)
    requires FindTeam(h.teams, m.solver.teamId) == Some(m.team)
    requires row.teamId == m.team.id
    requires forall i :: 0 <= i < |h.teams| ==> ReplaceTeam(h.teams, team')[i].id == h.teams[i].id
    ensures var h' := RecordGuess(h, team', row);
      SolversOnTeams(h') && LogOnTeams(h')
  {
    var h' := RecordGuess(h, team', row);
    forall x: nat | FindTeam(h.teams, x).Some? ensures FindTeam(h'.teams, x).Some? {
      var k :| 0 <= k < |h.teams| && h.teams[k].id == x;
      assert h'.teams[k].id == x;
    }
    forall i | 0 <= i < |h'.log| ensures FindTeam(h'.teams, h'.log[i].teamId).Some? {
      if i < |h.log| {
        assert h'.log[i] == h.log[i];
      } else {
        assert h'.log[i] == row;
      }
    }
  }

  lemma RecordKeepsOneCorrect(log: seq<LogRow>, row: LogRow)
    requires OneCorrectPerPuzzle(log)
    requires row.status == Correct ==> !HasSolved(log, row.teamId, row.puzzleId)
    ensures OneCorrectPerPuzzle(log + [row])
  {
    var log' := log + [row];
    forall i, j | 0 <= i < j < |log'| && log'[i].status == Correct && log'[j].status == Correct
      ensures log'[i].teamId != log'[j].teamId || log'[i].puzzleId != log'[j].puzzleId
    {
      if j == |log| {
        assert log'[i] == log[i];
      } else {
        assert log'[i] == log[i] && log'[j] == log[j];
      }
    }
  }

  /** The guessing team's score, quota and hunt flags follow the new row. */
  lemma RecordKeepsLedgerOfGuesser(h: Hunt, team: Team, puzzle: Puzzle, row: LogRow)
    requires PuzzleIdsAscending(h.puzzles)
    requires FindPuzzle(h.puzzles, row.puzzleId) == Some(puzzle)
    requires row.teamId == team.id
    requires row.status == Correct ==> !HasSolved(h.log, row.teamId, row.puzzleId)
    requires team.score == SolvedPoints(h.puzzles, h.log, team.id)
    requires team.numGuesses == InitialGuesses - Count(h.log, IncorrectBy(team.id))
    requires team.isHuntSolved <==> FinalSolved(h.puzzles, h.log, team.id)
    requires team.huntSolveTime.Some? <==> team.isHuntSolved
    ensures var t := ApplyVerdict(team, puzzle, row.status, row.time);
      && t.score == SolvedPoints(h.puzzles, h.log + [row], t.id)
      && t.numGuesses == InitialGuesses - Count(h.log + [row], IncorrectBy(t.id))
      && (t.isHuntSolved <==> FinalSolved(h.puzzles, h.log + [row], t.id))
      && (t.huntSolveTime.Some? <==> t.isHuntSolved)
  {
    CountAppend(h.log, row, IncorrectBy(team.id));
    FinalSolvedAppend(h.puzzles, h.log, row, team.id);
    if row.status == Correct {
      SolvedPointsFirstSolve(h.puzzles, h.log, row, puzzle);
      forall k | 0 <= k < |h.puzzles| && h.puzzles[k].id == row.puzzleId ensures h.puzzles[k] == puzzle {
        FindPuzzleUnique(h.puzzles, row.puzzleId, k);
      }
      if puzzle.isFinal {
        var k :| 0 <= k < |h.puzzles| && h.puzzles[k] == puzzle;
        assert h.puzzles[k].isFinal && h.puzzles[k].id == row.puzzleId;
      }
    } else {
      SolvedPointsOtherRow(h.puzzles, h.log, row, team.id);
    }
  }

  /** Teams other than the guesser's are untouched, and so is their ledger. */
  lemma RecordKeepsLedgerOfOthers(h: Hunt, t: Team, row: LogRow)
    requires t.id != row.teamId
    requires t.score == SolvedPoints(h.puzzles, h.log, t.id)
    requires t.numGuesses == InitialGuesses - Count(h.log, IncorrectBy(t.id))
    requires t.isHuntSolved <==> FinalSolved(h.puzzles, h.log, t.id)
    ensures t.score == SolvedPoints(h.puzzles, h.log + [row], t.id)
    ensures t.numGuesses == InitialGuesses - Count(h.log + [row], IncorrectBy(t.id))
    ensures t.isHuntSolved <==> FinalSolved(h.puzzles, h.log + [row], t.id)
  {
    CountAppend(h.log, row, IncorrectBy(t.id));
    FinalSolvedAppend(h.puzzles, h.log, row, t.id);
    SolvedPointsOtherRow(h.puzzles, h.log, row, t.id);
  }

  lemma RecordKeepsLedger(h: Hunt, m: Membership, puzzle: Puzzle, row: LogRow)
    requires PuzzleIdsAscending(h.puzzles) && TeamIdsDistinct(h.teams)
    requires ScoresMatchLog(h) && QuotasMatchLog(h) && HuntFlagsMatchLog(h)
    requires FindTeam(h.teams, m.solver.teamId) == Some(m.team)
    requires FindPuzzle(h.puzzles, row.puzzleId) == Some(puzzle)
    requires row.teamId == m.team.id
    requires row.status == Correct ==> !HasSolved(h.log, row.teamId, row.puzzleId)
    ensures var h' := RecordGuess(h, ApplyVerdict(m.team, puzzle, row.status, row.time), row);
      ScoresMatchLog(h') && QuotasMatchLog(h') && HuntFlagsMatchLog(h')
  {
    var team' := ApplyVerdict(m.team, puzzle, row.status, row.time);
    var h' := RecordGuess(h, team', row);
    ReplaceTeamRows(h, m, team');
    RecordKeepsLedgerOfGuesser(h, m.team, puzzle, row);
    forall i | 0 <= i < |h'.teams|
      ensures h'.teams[i].score == SolvedPoints(h'.puzzles, h'.log, h'.teams[i].id)
      ensures h'.teams[i].numGuesses == InitialGuesses - Count(h'.log, IncorrectBy(h'.teams[i].id))
      ensures h'.teams[i].isHuntSolved <==> FinalSolved(h'.puzzles, h'.log, h'.teams[i].id)
      ensures h'.teams[i].huntSolveTime.Some? <==> h'.teams[i].isHuntSolved
    {
      if h.teams[i].id != m.team.id {
        RecordKeepsLedgerOfOthers(h, h.teams[i], row);
      }
    }
  }

  /** Logging a guess the team has no row for yet, on that puzzle, keeps
      one row per (team, puzzle, guess). */
  lemma RecordKeepsGuessesOnce(log: seq<LogRow>, row: LogRow)
    requires GuessesLoggedOnce(log)
    requires Count(log, GuessFor(row.teamId, row.puzzleId, row.guess)) == 0
    ensures GuessesLoggedOnce(log + [row])
  {
    var log' := log + [row];
    forall i, j | 0 <= i < j < |log'|
      ensures log'[i].teamId != log'[j].teamId || log'[i].puzzleId != log'[j].puzzleId || log'[i].guess != log'[j].guess
    {
      assert log'[i] == log[i];
      if j == |log| {
        assert !Matches(GuessFor(row.teamId, row.puzzleId, row.guess), log[i]);
      } else {
        assert log'[j] == log[j];
      }
    }
  }

  /** An accepted guess keeps the store consistent. */
  lemma ProcessGuessPreservesConsistent(h: Hunt, identity: string, puzzleId: nat, raw: string, now: int)
    requires Consistent(h)
    requires PuzzleExists(h.puzzles, puzzleId)
    ensures Consistent(ProcessGuess(h, identity, puzzleId, raw, now).0)
  {
    var r := ProcessGuess(h, identity, puzzleId, raw, now);
    if r.1.Accepted? {
      var m := MembershipOf(h, identity).value;
      var puzzle := FindPuzzle(h.puzzles, puzzleId).value;
      var row := LogRow(puzzleId, m.team.id, Normalize(raw), r.1.verdict, now);
      var team' := ApplyVerdict(m.team, puzzle, row.status, row.time);
      RecordKeepsTables(h, m, team', row);
      RecordKeepsOneCorrect(h.log, row);
      RecordKeepsGuessesOnce(h.log, row);
      RecordKeepsLedger(h, m, puzzle, row);
    }
  }

  /** With the quota guard in front, an interaction keeps the store
      consistent, and keeps it well formed: an incorrect guess is only
      recorded when one is left. */
  lemma SubmitGuessPreservesWellFormed(h: Hunt, identity: string, puzzleId: nat, raw: string, now: int)
    requires Consistent(h)
    requires PuzzleExists(h.puzzles, puzzleId)
    ensures Consistent(SubmitGuess(h, identity, puzzleId, raw, now).0)
    ensures WellFormed(h) ==> WellFormed(SubmitGuess(h, identity, puzzleId, raw, now).0)
  {
    var r := SubmitGuess(h, identity, puzzleId, raw, now);
    if r.1.Processed? {
      ProcessGuessPreservesConsistent(h, identity, puzzleId, raw, now);
      if WellFormed(h) {
        SubmitGuessKeepsQuotas(h, identity, puzzleId, raw, now);
      }
    }
  }

  /** A guess that passed the quota guard on the same store leaves every
      quota non-negative. */
  lemma SubmitGuessKeepsQuotas(h: Hunt, identity: string, puzzleId: nat, raw: string, now: int)
    requires Consistent(h) && QuotasNonNegative(h)
    requires PuzzleExists(h.puzzles, puzzleId)
    requires SubmitGuess(h, identity, puzzleId, raw, now).1.Processed?
    ensures QuotasNonNegative(SubmitGuess(h, identity, puzzleId, raw, now).0)
  {
    var p := ProcessGuess(h, identity, puzzleId, raw, now);
    if p.1.Accepted? {
      var m := MembershipOf(h, identity).value;
      var team' := ApplyVerdict(m.team, FindPuzzle(h.puzzles, puzzleId).value, p.1.verdict, now);
      ReplaceTeamRows(h, m, team');
      ReplaceKeepsQuotas(h, m, team');
    }
  }

  /** Replacing the guesser's row by one with a non-negative quota keeps
      every quota non-negative. */
  lemma ReplaceKeepsQuotas(h: Hunt, m: Membership, team': Team)
    requires QuotasNonNegative(h) && team'.numGuesses >= 0
    requires forall i :: 0 <= i < |h.teams| ==>
      if h.teams[i].id == m.team.id then ReplaceTeam(h.teams, team')[i] == team'
      else ReplaceTeam(h.teams, team')[i] == h.teams[i]
    ensures forall i :: 0 <= i < |h.teams| ==> ReplaceTeam(h.teams, team')[i].numGuesses >= 0
  {
  }
}
