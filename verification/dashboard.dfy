/** The puzzle dashboard query (main.py, `display_puzzles`): one line per
    puzzle in id order with the global counts of `correct` and `incorrect`
    log rows (a `partial` row counts toward neither) and, for a viewer in a
    direct message, the answer their team logged. */
module PuzzleDashboard {
  import opened Options
  import opened Tables
  import opened Invariants
  import opened GuessEngine

  datatype PuzzleLine = PuzzleLine(number: nat, name: string, solves: nat, guesses: nat, answer: Option<string>)

  /** Rows of any team for a puzzle, optionally with a given status. */
  function PuzzleRows(puzzleId: nat, status: Option<Verdict>): Query {
    Query(None, Some(puzzleId), status, None)
  }

  /** The team whose answers are shown: the viewer's team, but none outside
      a direct message or for an unregistered viewer. */
  function ViewerTeam(h: Hunt, identity: string, inDM: bool): (v: Option<nat>)
    ensures v.Some? <==> inDM && MembershipOf(h, identity).Some?
    ensures v.Some? ==> v.value == MembershipOf(h, identity).value.team.id
  {
    if !inDM then None
    else
      match MembershipOf(h, identity)
      case None => None
      case Some(m) => Some(m.team.id)
  }

  function Lines(puzzles: seq<Puzzle>, log: seq<LogRow>, viewer: Option<nat>): (lines: seq<PuzzleLine>)
    ensures |lines| == |puzzles|
    ensures forall i :: 0 <= i < |lines| ==>
      && lines[i].number == i + 1
      && lines[i].name == puzzles[i].name
      && lines[i].solves == Count(log, PuzzleRows(puzzles[i].id, Some(Correct)))
      && lines[i].guesses == Count(log, PuzzleRows(puzzles[i].id, Some(Incorrect)))
    ensures forall i :: 0 <= i < |lines| ==>
      (lines[i].answer.Some? <==> viewer.Some? && HasSolved(log, viewer.value, puzzles[i].id))
    ensures forall i :: 0 <= i < |lines| && lines[i].answer.Some? ==>
      exists k :: 0 <= k < |log| && Matches(CorrectFor(viewer.value, puzzles[i].id), log[k])
        && log[k].guess == lines[i].answer.value
  {
    seq(|puzzles|, i requires 0 <= i < |puzzles| =>
      PuzzleLine(i + 1, puzzles[i].name,
                 Count(log, PuzzleRows(puzzles[i].id, Some(Correct))),
                 Count(log, PuzzleRows(puzzles[i].id, Some(Incorrect))),
                 if viewer.Some? then SolvedAnswer(log, viewer.value, puzzles[i].id) else None))
  }

  function Dashboard(h: Hunt, identity: string, inDM: bool): seq<PuzzleLine> {
    Lines(h.puzzles, h.log, ViewerTeam(h, identity, inDM))
  }

  /** The "Answer" column is shown only if some answer is known. */
  predicate ShowAnswerColumn(lines: seq<PuzzleLine>) {
    exists i :: 0 <= i < |lines| && lines[i].answer.Some?
  }

  /** The "Answer" column is shown exactly when the dashboard is viewed in a
      direct message by a registered user whose team solved some puzzle. */
  lemma AnswerColumnShown(h: Hunt, identity: string, inDM: bool)
    ensures ShowAnswerColumn(Dashboard(h, identity, inDM)) <==>
      && inDM && MembershipOf(h, identity).Some?
      && exists k :: 0 <= k < |h.puzzles| && HasSolved(h.log, MembershipOf(h, identity).value.team.id, h.puzzles[k].id)
  {
    var lines := Dashboard(h, identity, inDM);
    if k :| inDM && MembershipOf(h, identity).Some? && 0 <= k < |h.puzzles|
                 && HasSolved(h.log, MembershipOf(h, identity).value.team.id, h.puzzles[k].id) {
      assert lines[k].answer.Some?;
    }
  }

  /** Every log row of a puzzle is counted as a solve, as a guess, or (when
      partial) as neither. */
  lemma {:induction false} CountsPartition(log: seq<LogRow>, puzzleId: nat)
    ensures Count(log, PuzzleRows(puzzleId, Some(Correct))) + Count(log, PuzzleRows(puzzleId, Some(Incorrect)))
          + Count(log, PuzzleRows(puzzleId, Some(Partial)))
         == Count(log, PuzzleRows(puzzleId, None))
  {
    if |log| > 0 {
      CountsPartition(log[1..], puzzleId);
    }
  }

  /** In a direct message, the dashboard shows an answer for a puzzle exactly
      when a guess on it would be answered "already solved", and the answer
      shown is the one that reply quotes. */
  lemma DashboardAgreesWithGuess(h: Hunt, identity: string, k: nat, raw: string, now: int)
    requires k < |h.puzzles|
    requires MembershipOf(h, identity).Some?
    ensures PuzzleExists(h.puzzles, h.puzzles[k].id)
    ensures var line := Dashboard(h, identity, true)[k];
      var r := ProcessGuess(h, identity, h.puzzles[k].id, raw, now);
      && (line.answer.Some? <==> r.1.AlreadySolved?)
      && (line.answer.Some? ==> line.answer.value == r.1.answer)
  {
    assert FindPuzzle(h.puzzles, h.puzzles[k].id).Some?;
  }
}
