/** The guess pipeline (main.py, `process_guess`) and the quota guard that
    precedes it (main.py, `gather_guess`). One call is one transaction:
    membership check, normalisation, classification against the response
    rules, the already-solved and duplicate short-circuits, the log insert
    and the team update. */
module GuessEngine {
  import opened Options
  import opened GuessText
  import opened Tables
  import opened Invariants

  /** Reply sent when no response rule matches. */
  const IncorrectReply: string := "Incorrect guess (no follow-up data available)."

  /** What the user is told. `echo` is the normalised guess the bot echoes
      back; `remaining` is the quota reported after an incorrect guess. */
  datatype GuessOutcome =
    | NotRegistered
    | AlreadySolved(echo: string, answer: string)
    | Duplicate(echo: string, verdict: Verdict, reply: string)
    | Accepted(echo: string, verdict: Verdict, reply: string, remaining: Option<int>)

  /** The result of `gather_guess`: refuse, or offer the puzzle list. */
  datatype GuessGate = Unregistered | OutOfGuesses | PickPuzzle(puzzleIds: seq<nat>)

  /** The verdict and reply for normalised guess `g` on a puzzle: the first
      matching rule decides, and no matching rule means `incorrect`. */
  function Classify(responses: seq<Response>, puzzleId: nat, g: string): (c: (Verdict, string))
    ensures c.0 == Incorrect <==> FindResponse(responses, puzzleId, g).None?
    ensures c.0 == Incorrect ==> c.1 == IncorrectReply
    ensures c.0 != Incorrect ==>
      var rule := FindResponse(responses, puzzleId, g).value;
      && c.1 == rule.reply
      && (c.0 == Correct <==> rule.isAnswer)
  {
    match FindResponse(responses, puzzleId, g)
    case None => (Incorrect, IncorrectReply)
    case Some(rule) => (if rule.isAnswer then Correct else Partial, rule.reply)
  }

  /** The scoring ledger: the team row after an accepted guess. */
  function ApplyVerdict(team: Team, puzzle: Puzzle, v: Verdict, now: int): (t: Team)
    ensures t.id == team.id && t.name == team.name && t.token == team.token && t.isDeleted == team.isDeleted
    ensures v == Incorrect ==> t == team.(numGuesses := team.numGuesses - 1)
    ensures v == Partial ==> t == team
    ensures v == Correct ==>
      && t.score == team.score + puzzle.points
      && t.numGuesses == team.numGuesses
      && t.lastSolveTime == now
      && (puzzle.isFinal ==> t.isHuntSolved && t.huntSolveTime == Some(now))
      && (!puzzle.isFinal ==> t.isHuntSolved == team.isHuntSolved && t.huntSolveTime == team.huntSolveTime)
  {
    match v
    case Incorrect => team.(numGuesses := team.numGuesses - 1)
    case Partial => team
    case Correct =>
      var scored := team.(score := team.score + puzzle.points, lastSolveTime := now);
      if puzzle.isFinal then scored.(isHuntSolved := puzzle.isFinal, huntSolveTime := Some(now)) else scored
  }

  /** The write half of an accepted guess: one log row appended and the
      team row replaced. */
  function RecordGuess(h: Hunt, team: Team, row: LogRow): Hunt {
    h.(log := h.log + [row], teams := ReplaceTeam(h.teams, team))
  }

  /** `process_guess`. The puzzle id always comes from the puzzle table,
      so the puzzle exists. */
  function ProcessGuess(h: Hunt, identity: string, puzzleId: nat, raw: string, now: int): (r: (Hunt, GuessOutcome))
    requires PuzzleExists(h.puzzles, puzzleId)
    ensures r.1 == NotRegistered <==> MembershipOf(h, identity).None?
    ensures r.1.AlreadySolved? <==>
      MembershipOf(h, identity).Some? && HasSolved(h.log, MembershipOf(h, identity).value.team.id, puzzleId)
    ensures r.1.Duplicate? <==>
      && MembershipOf(h, identity).Some?
      && !HasSolved(h.log, MembershipOf(h, identity).value.team.id, puzzleId)
      && Count(h.log, GuessFor(MembershipOf(h, identity).value.team.id, puzzleId, Normalize(raw))) > 0
    ensures r.1.Accepted? <==>
      && MembershipOf(h, identity).Some?
      && !HasSolved(h.log, MembershipOf(h, identity).value.team.id, puzzleId)
      && Count(h.log, GuessFor(MembershipOf(h, identity).value.team.id, puzzleId, Normalize(raw))) == 0
    ensures !r.1.NotRegistered? ==> r.1.echo == Normalize(raw)
    ensures r.1.AlreadySolved? ==>
      exists i :: 0 <= i < |h.log| && h.log[i].guess == r.1.answer &&
        Matches(CorrectFor(MembershipOf(h, identity).value.team.id, puzzleId), h.log[i])
    ensures (r.1.Duplicate? || r.1.Accepted?) ==>
      (r.1.verdict, r.1.reply) == Classify(h.responses, puzzleId, Normalize(raw))
    ensures !r.1.Accepted? ==> r.0 == h
    ensures r.0.puzzles == h.puzzles && r.0.responses == h.responses && r.0.solvers == h.solvers
    ensures r.1.Accepted? ==>
      var team := MembershipOf(h, identity).value.team;
      var team' := ApplyVerdict(team, FindPuzzle(h.puzzles, puzzleId).value, r.1.verdict, now);
      && r.0 == RecordGuess(h, team', LogRow(puzzleId, team.id, Normalize(raw), r.1.verdict, now))
      && r.1.remaining == if r.1.verdict == Incorrect then Some(team'.numGuesses) else None
  {
    match MembershipOf(h, identity)
    case None => (h, NotRegistered)
    case Some(m) =>
      var g := Normalize(raw);
      var (v, reply) := Classify(h.responses, puzzleId, g);
      match SolvedAnswer(h.log, m.team.id, puzzleId)
      case Some(answer) => (h, AlreadySolved(g, answer))
      case None =>
        if Count(h.log, GuessFor(m.team.id, puzzleId, g)) > 0 then (h, Duplicate(g, v, reply))
        else
          var team' := ApplyVerdict(m.team, FindPuzzle(h.puzzles, puzzleId).value, v, now);
          (RecordGuess(h, team', LogRow(puzzleId, m.team.id, g, v, now)),
           Accepted(g, v, reply, if v == Incorrect then Some(team'.numGuesses) else None))
  }

  /** `gather_guess`: refuse unregistered users and teams with no guesses
      left; otherwise offer every puzzle, in id order. */
  function GatherGuess(h: Hunt, identity: string): (gate: GuessGate)
    ensures gate == Unregistered <==> MembershipOf(h, identity).None?
    ensures gate == OutOfGuesses <==>
      MembershipOf(h, identity).Some? && MembershipOf(h, identity).value.team.numGuesses < 1
    ensures gate.PickPuzzle? ==>
      && MembershipOf(h, identity).value.team.numGuesses >= 1
      && forall id :: id in gate.puzzleIds <==> PuzzleExists(h.puzzles, id)
  {
    match MembershipOf(h, identity)
    case None => Unregistered
    case Some(m) =>
      if m.team.numGuesses < 1 then OutOfGuesses
      else
        var ids := seq(|h.puzzles|, i requires 0 <= i < |h.puzzles| => h.puzzles[i].id);
        assert forall id :: id in ids <==> PuzzleExists(h.puzzles, id) by {
          forall id ensures id in ids <==> PuzzleExists(h.puzzles, id) {
            if PuzzleExists(h.puzzles, id) {
              var k :| 0 <= k < |h.puzzles| && h.puzzles[k] == FindPuzzle(h.puzzles, id).value;
              assert ids[k] == id;
            }
          }
        }
        PickPuzzle(ids)
  }

  datatype SubmitOutcome = Refused(gate: GuessGate) | Processed(outcome: GuessOutcome)

  /** One `!guess` interaction: the guard, then the guess on the chosen
      puzzle. */
  function SubmitGuess(h: Hunt, identity: string, puzzleId: nat, raw: string, now: int): (r: (Hunt, SubmitOutcome))
    requires PuzzleExists(h.puzzles, puzzleId)
    ensures r.1.Refused? <==> !GatherGuess(h, identity).PickPuzzle?
    ensures r.1.Refused? ==> r.0 == h
    ensures r.1.Processed? ==>
      && MembershipOf(h, identity).value.team.numGuesses >= 1
      && (r.0, r.1.outcome) == ProcessGuess(h, identity, puzzleId, raw, now)
  {
    var gate := GatherGuess(h, identity);
    if gate.PickPuzzle? then
      var (h', outcome) := ProcessGuess(h, identity, puzzleId, raw, now);
      (h', Processed(outcome))
    else (h, Refused(gate))
  }
}
