/** What a second guess sees after a first one was accepted: a solved
    puzzle stays solved for the whole team, and resubmitting the same
    normalised text is never logged twice. */
module GuessSequences {
  import opened Options
  import opened GuessText
  import opened Tables
  import opened Invariants
  import opened GuessEngine
  import opened GuessInvariants

  /** Replacing a team row by one with the same id changes no lookup's
      solver and no looked-up team id. */
  lemma {:induction false} LookupAfterReplace(solvers: seq<Solver>, teams: seq<Team>, t: Team, identity: string)
    ensures var before := LookupMember(solvers, teams, identity, false);
      var after := LookupMember(solvers, ReplaceTeam(teams, t), identity, false);
      && before.Some? == after.Some?
      && (before.Some? ==> after.value.solver == before.value.solver && after.value.team.id == before.value.team.id)
  {
    var teams' := ReplaceTeam(teams, t);
    forall x: nat ensures FindTeam(teams', x).Some? <==> FindTeam(teams, x).Some? {
      assert forall i :: 0 <= i < |teams| ==> teams'[i].id == teams[i].id;
    }
    if |solvers| > 0 {
      LookupAfterReplace(solvers[1..], teams, t, identity);
    }
  }

  lemma {:induction false} SolvedAnswerAppend(log: seq<LogRow>, row: LogRow, teamId: nat, puzzleId: nat)
    ensures SolvedAnswer(log + [row], teamId, puzzleId)
         == if SolvedAnswer(log, teamId, puzzleId).Some? then SolvedAnswer(log, teamId, puzzleId)
            else if Matches(CorrectFor(teamId, puzzleId), row) then Some(row.guess)
            else None
  {
    if |log| > 0 {
      assert (log + [row])[1..] == log[1..] + [row];
      SolvedAnswerAppend(log[1..], row, teamId, puzzleId);
    } else {
      assert log + [row] == [row];
    }
  }

  /** Rows appended after a team's correct row for a puzzle do not change
      the answer found for it. */
  lemma {:induction false} SolvedAnswerExtend(log: seq<LogRow>, more: seq<LogRow>, teamId: nat, puzzleId: nat)
    requires SolvedAnswer(log, teamId, puzzleId).Some?
    ensures SolvedAnswer(log + more, teamId, puzzleId) == SolvedAnswer(log, teamId, puzzleId)
  {
    assert (log + more)[0] == log[0];
    if !Matches(CorrectFor(teamId, puzzleId), log[0]) {
      assert (log + more)[1..] == log[1..] + more;
      SolvedAnswerExtend(log[1..], more, teamId, puzzleId);
    }
  }

  /** An accepted correct guess records its normalised text as the team's
      answer to the puzzle. */
  lemma CorrectGuessSolves(h: Hunt, identity: string, puzzleId: nat, raw: string, now: int)
    requires PuzzleExists(h.puzzles, puzzleId)
    requires ProcessGuess(h, identity, puzzleId, raw, now).1.Accepted?
    requires ProcessGuess(h, identity, puzzleId, raw, now).1.verdict == Correct
    ensures SolvedAnswer(ProcessGuess(h, identity, puzzleId, raw, now).0.log,
                         MembershipOf(h, identity).value.team.id, puzzleId) == Some(Normalize(raw))
  {
    var m := MembershipOf(h, identity).value;
    var row := LogRow(puzzleId, m.team.id, Normalize(raw), Correct, now);
    assert ProcessGuess(h, identity, puzzleId, raw, now).0.log == h.log + [row];
    SolvedAnswerAppend(h.log, row, m.team.id, puzzleId);
  }

  /** A guess by a member of a team that has a logged answer for the puzzle
      is answered "already solved" with that answer and changes nothing. */
  lemma SolvedTeamGuess(h: Hunt, identity: string, puzzleId: nat, raw: string, now: int, answer: string)
    requires PuzzleExists(h.puzzles, puzzleId)
    requires MembershipOf(h, identity).Some?
    requires SolvedAnswer(h.log, MembershipOf(h, identity).value.team.id, puzzleId) == Some(answer)
    ensures ProcessGuess(h, identity, puzzleId, raw, now) == (h, AlreadySolved(Normalize(raw), answer))
  {
  }

  /** A logged answer is still found in any longer log, so a guess by a
      member of that team is answered "already solved" with it. */
  lemma SolvedInLongerLog(log: seq<LogRow>, h: Hunt, teamId: nat, puzzleId: nat, answer: string,
                          identity: string, raw: string, now: int)
    requires PuzzleExists(h.puzzles, puzzleId)
    requires SolvedAnswer(log, teamId, puzzleId) == Some(answer) && log <= h.log
    requires MembershipOf(h, identity).Some? && MembershipOf(h, identity).value.team.id == teamId
    ensures ProcessGuess(h, identity, puzzleId, raw, now) == (h, AlreadySolved(Normalize(raw), answer))
  {
    assert h.log == log + h.log[|log|..];
    SolvedAnswerExtend(log, h.log[|log|..], teamId, puzzleId);
    SolvedTeamGuess(h, identity, puzzleId, raw, now, answer);
  }

  /** Once a correct guess is accepted, the next guess on that puzzle by
      any member of the team is answered "already solved" with the logged
      answer, and changes nothing. `Session.SolveSurvivesRun` extends this
      to a guess after any run of further commands. */
  lemma SolvedStaysSolved(h: Hunt, identity: string, teammate: string, puzzleId: nat,
                          raw: string, now: int, raw2: string, now2: int)
    requires PuzzleExists(h.puzzles, puzzleId)
    requires ProcessGuess(h, identity, puzzleId, raw, now).1.Accepted?
    requires ProcessGuess(h, identity, puzzleId, raw, now).1.verdict == Correct
    requires MembershipOf(h, teammate).Some?
    requires MembershipOf(h, teammate).value.team.id == MembershipOf(h, identity).value.team.id
    ensures var h1 := ProcessGuess(h, identity, puzzleId, raw, now).0;
      ProcessGuess(h1, teammate, puzzleId, raw2, now2) == (h1, AlreadySolved(Normalize(raw2), Normalize(raw)))
  {
    var m := MembershipOf(h, identity).value;
    var row := LogRow(puzzleId, m.team.id, Normalize(raw), Correct, now);
    var team' := ApplyVerdict(m.team, FindPuzzle(h.puzzles, puzzleId).value, Correct, now);
    LookupAfterReplace(h.solvers, h.teams, team', teammate);
    SolvedAnswerAppend(h.log, row, m.team.id, puzzleId);
  }

  /** Submitting the same normalised text again for the same puzzle is
      either a duplicate or an already-solved reply; either way nothing
      changes, so the log holds exactly one row for that text. */
  lemma SameGuessLoggedOnce(h: Hunt, identity: string, puzzleId: nat,
                            raw: string, now: int, raw2: string, now2: int)
    requires PuzzleExists(h.puzzles, puzzleId)
    requires ProcessGuess(h, identity, puzzleId, raw, now).1.Accepted?
    requires Normalize(raw2) == Normalize(raw)
    ensures var h1 := ProcessGuess(h, identity, puzzleId, raw, now).0;
      var r2 := ProcessGuess(h1, identity, puzzleId, raw2, now2);
      var teamId := MembershipOf(h, identity).value.team.id;
      && r2.0 == h1
      && (r2.1.Duplicate? || r2.1.AlreadySolved?)
      && (r2.1.Duplicate? <==> ProcessGuess(h, identity, puzzleId, raw, now).1.verdict != Correct)
      && Count(h1.log, GuessFor(teamId, puzzleId, Normalize(raw))) == 1
  {
    var r1 := ProcessGuess(h, identity, puzzleId, raw, now);
    var m := MembershipOf(h, identity).value;
    var row := LogRow(puzzleId, m.team.id, Normalize(raw), r1.1.verdict, now);
    var team' := ApplyVerdict(m.team, FindPuzzle(h.puzzles, puzzleId).value, r1.1.verdict, now);
    LookupAfterReplace(h.solvers, h.teams, team', identity);
    CountAppend(h.log, row, GuessFor(m.team.id, puzzleId, Normalize(raw)));
    HasSolvedAppend(h.log, row, m.team.id, puzzleId);
  }

  /** `process_guess` itself never checks the quota: a guess submitted
      through a puzzle menu opened before the quota ran out is still
      debited, and the quota goes negative. */
  lemma StaleMenuOverdraws(h: Hunt, identity: string, puzzleId: nat, raw: string, now: int)
    requires Consistent(h)
    requires PuzzleExists(h.puzzles, puzzleId)
    requires MembershipOf(h, identity).Some? && MembershipOf(h, identity).value.team.numGuesses == 0
    requires ProcessGuess(h, identity, puzzleId, raw, now).1.Accepted?
    requires ProcessGuess(h, identity, puzzleId, raw, now).1.verdict == Incorrect
    ensures ProcessGuess(h, identity, puzzleId, raw, now).1.remaining == Some(-1)
    ensures !QuotasNonNegative(ProcessGuess(h, identity, puzzleId, raw, now).0)
  {
    var m := MembershipOf(h, identity).value;
    var k := MembershipTeamInTable(h, m);
    var h1 := ProcessGuess(h, identity, puzzleId, raw, now).0;
    assert h1.teams[k].numGuesses == -1;
  }

  /** The quota guard of `!guess` runs when the puzzle menu is built, and the
      guess is processed later, when the modal is submitted. A team with one
      guess left can open two menus (both pass the guard), then submit an
      incorrect guess through each: the quota goes from 1 to 0 to -1. */
  lemma TwoStaleMenus(h: Hunt, identity: string, p1: nat, raw1: string, now1: int,
                      p2: nat, raw2: string, now2: int)
    requires WellFormed(h)
    requires PuzzleExists(h.puzzles, p1) && PuzzleExists(h.puzzles, p2)
    requires MembershipOf(h, identity).Some? && MembershipOf(h, identity).value.team.numGuesses == 1
    requires ProcessGuess(h, identity, p1, raw1, now1).1.Accepted?
    requires ProcessGuess(h, identity, p1, raw1, now1).1.verdict == Incorrect
    requires ProcessGuess(ProcessGuess(h, identity, p1, raw1, now1).0, identity, p2, raw2, now2).1.Accepted?
    requires ProcessGuess(ProcessGuess(h, identity, p1, raw1, now1).0, identity, p2, raw2, now2).1.verdict == Incorrect
    ensures GatherGuess(h, identity).PickPuzzle?
    ensures var h1 := ProcessGuess(h, identity, p1, raw1, now1).0;
      var r2 := ProcessGuess(h1, identity, p2, raw2, now2);
      && r2.1.remaining == Some(-1)
      && !QuotasNonNegative(r2.0)
  {
    var m := MembershipOf(h, identity).value;
    var k := MembershipTeamInTable(h, m);
    var h1 := ProcessGuess(h, identity, p1, raw1, now1).0;
    var team' := ApplyVerdict(m.team, FindPuzzle(h.puzzles, p1).value, Incorrect, now1);
    ProcessGuessPreservesConsistent(h, identity, p1, raw1, now1);
    LookupAfterReplace(h.solvers, h.teams, team', identity);
    assert h1.teams[k] == team';
    FindTeamUnique(h1.teams, m.team.id, k);
    assert MembershipOf(h1, identity).value.team == team';
    StaleMenuOverdraws(h1, identity, p2, raw2, now2);
  }
}
