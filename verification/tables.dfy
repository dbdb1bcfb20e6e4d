/** The persistent store (db-creation.py, `create_tables`) as an immutable
    record of five tables, with the read-only queries main.py issues
    against it. Tables are sequences in storage order, so the row a
    `fetchone()` returns is the first matching one. */
module Tables {
  import opened Options

  /** Column defaults of a fresh `teams` row. */
  const InitialGuesses: int := 50
  const InitialScore: int := 0

  datatype Verdict = Correct | Incorrect | Partial

  datatype Puzzle = Puzzle(id: nat, name: string, points: int, isFinal: bool)

  /** One rule of the response table: a normalised guess and its reply. */
  datatype Response = Response(puzzleId: nat, guess: string, isAnswer: bool, reply: string)

  /** Timestamps are plain integers; `huntSolveTime` is NULL until the final
      puzzle is solved. */
  datatype Team = Team(
    id: nat,
    name: string,
    token: string,
    numGuesses: int,
    score: int,
    isHuntSolved: bool,
    isDeleted: bool,
    lastSolveTime: int,
    huntSolveTime: Option<int>)

  datatype Solver = Solver(identity: string, displayName: string, teamId: nat, isCaptain: bool)

  datatype LogRow = LogRow(puzzleId: nat, teamId: nat, guess: string, status: Verdict, time: int)

  /** The whole store. `nextTeamId` is the `teams.team_id` serial counter. */
  datatype Hunt = Hunt(
    puzzles: seq<Puzzle>,
    responses: seq<Response>,
    teams: seq<Team>,
    solvers: seq<Solver>,
    log: seq<LogRow>,
    nextTeamId: nat)

  /** A row of the `solvers JOIN teams` lookup. */
  datatype Membership = Membership(solver: Solver, team: Team)

  /** The `teams` row an insert with only name and token produces. */
  function FreshTeam(id: nat, name: string, token: string, now: int): (t: Team)
    ensures t.id == id && t.name == name && t.token == token
    ensures t.numGuesses == InitialGuesses && t.score == InitialScore
    ensures !t.isHuntSolved && !t.isDeleted && t.huntSolveTime == None
  {
    Team(id, name, token, InitialGuesses, InitialScore, false, false, now, None)
  }

  // ---------------------------------------------------------------------
  // Lookups

  /** First team with the given id. */
  function FindTeam(teams: seq<Team>, id: nat): (r: Option<Team>)
    ensures r.Some? ==> r.value in teams && r.value.id == id
    ensures r.None? <==> forall i :: 0 <= i < |teams| ==> teams[i].id != id
  {
    if |teams| == 0 then None
    else if teams[0].id == id then Some(teams[0])
    else FindTeam(teams[1..], id)
  }

  /** First team whose token equals `token`; deleted teams are not skipped. */
  function FindTeamByToken(teams: seq<Team>, token: string): (r: Option<Team>)
    ensures r.Some? ==> r.value in teams && r.value.token == token
    ensures r.None? <==> forall i :: 0 <= i < |teams| ==> teams[i].token != token
    ensures r.Some? ==>
      exists k :: 0 <= k < |teams| && teams[k] == r.value && forall i :: 0 <= i < k ==> teams[i].token != token
  {
    if |teams| == 0 then None
    else if teams[0].token == token then Some(teams[0])
    else FindTeamByToken(teams[1..], token)
  }

  /** First row of `solvers JOIN teams` for `identity`, restricted to
      captains when `captainOnly` holds. Deleted teams are not skipped. */
  function LookupMember(solvers: seq<Solver>, teams: seq<Team>, identity: string, captainOnly: bool)
    : (r: Option<Membership>)
    ensures r.Some? ==>
      && r.value.solver in solvers
      && r.value.solver.identity == identity
      && (captainOnly ==> r.value.solver.isCaptain)
      && FindTeam(teams, r.value.solver.teamId) == Some(r.value.team)
    ensures r.None? <==>
      forall i :: 0 <= i < |solvers| && solvers[i].identity == identity && (captainOnly ==> solvers[i].isCaptain)
        ==> FindTeam(teams, solvers[i].teamId).None?
  {
    if |solvers| == 0 then None
    else
      var s := solvers[0];
      if s.identity == identity && (captainOnly ==> s.isCaptain) && FindTeam(teams, s.teamId).Some? then
        Some(Membership(s, FindTeam(teams, s.teamId).value))
      else
        LookupMember(solvers[1..], teams, identity, captainOnly)
  }

  function MembershipOf(h: Hunt, identity: string): Option<Membership> {
    LookupMember(h.solvers, h.teams, identity, false)
  }

  function CaptaincyOf(h: Hunt, identity: string): Option<Membership> {
    LookupMember(h.solvers, h.teams, identity, true)
  }

  function FindPuzzle(puzzles: seq<Puzzle>, id: nat): (r: Option<Puzzle>)
    ensures r.Some? ==> r.value in puzzles && r.value.id == id
    ensures r.None? <==> forall i :: 0 <= i < |puzzles| ==> puzzles[i].id != id
  {
    if |puzzles| == 0 then None
    else if puzzles[0].id == id then Some(puzzles[0])
    else FindPuzzle(puzzles[1..], id)
  }

  predicate PuzzleExists(puzzles: seq<Puzzle>, id: nat) {
    FindPuzzle(puzzles, id).Some?
  }

  /** First response rule of puzzle `puzzleId` for normalised guess `guess`. */
  function FindResponse(responses: seq<Response>, puzzleId: nat, guess: string): (r: Option<Response>)
    ensures r.Some? ==> r.value in responses && r.value.puzzleId == puzzleId && r.value.guess == guess
    ensures r.None? <==>
      forall i :: 0 <= i < |responses| ==> responses[i].puzzleId != puzzleId || responses[i].guess != guess
  {
    if |responses| == 0 then None
    else if responses[0].puzzleId == puzzleId && responses[0].guess == guess then Some(responses[0])
    else FindResponse(responses[1..], puzzleId, guess)
  }

  // ---------------------------------------------------------------------
  // Guess-log queries

  /** A conjunctive filter on log rows; `None` fields match anything. */
  datatype Query = Query(teamId: Option<nat>, puzzleId: Option<nat>, status: Option<Verdict>, guess: Option<string>)

  predicate Matches(q: Query, row: LogRow) {
    && (q.teamId.Some? ==> row.teamId == q.teamId.value)
    && (q.puzzleId.Some? ==> row.puzzleId == q.puzzleId.value)
    && (q.status.Some? ==> row.status == q.status.value)
    && (q.guess.Some? ==> row.guess == q.guess.value)
  }

  /** Number of log rows matching `q` (a SQL `COUNT(*) ... WHERE q`). */
  function Count(log: seq<LogRow>, q: Query): (n: nat)
    ensures n <= |log|
    ensures n == 0 <==> forall i :: 0 <= i < |log| ==> !Matches(q, log[i])
  {
    if |log| == 0 then 0
    else (if Matches(q, log[0]) then 1 else 0) + Count(log[1..], q)
  }

  function CorrectFor(teamId: nat, puzzleId: nat): Query {
    Query(Some(teamId), Some(puzzleId), Some(Correct), None)
  }

  function IncorrectBy(teamId: nat): Query {
    Query(Some(teamId), None, Some(Incorrect), None)
  }

  function GuessFor(teamId: nat, puzzleId: nat, guess: string): Query {
    Query(Some(teamId), Some(puzzleId), None, Some(guess))
  }

  /** The team has a `correct` log row for the puzzle. */
  predicate HasSolved(log: seq<LogRow>, teamId: nat, puzzleId: nat) {
    Count(log, CorrectFor(teamId, puzzleId)) > 0
  }

  /** The logged answer of the team's `correct` row for the puzzle. */
  function SolvedAnswer(log: seq<LogRow>, teamId: nat, puzzleId: nat): (r: Option<string>)
    ensures r.Some? <==> HasSolved(log, teamId, puzzleId)
    ensures r.Some? ==> exists i :: 0 <= i < |log| && Matches(CorrectFor(teamId, puzzleId), log[i]) && log[i].guess == r.value
  {
    if |log| == 0 then None
    else if Matches(CorrectFor(teamId, puzzleId), log[0]) then Some(log[0].guess)
    else
      var r := SolvedAnswer(log[1..], teamId, puzzleId);
      assert r.Some? ==> exists i :: 0 <= i < |log| && Matches(CorrectFor(teamId, puzzleId), log[i]) && log[i].guess == r.value by {
        if r.Some? {
          var j :| 0 <= j < |log| - 1 && Matches(CorrectFor(teamId, puzzleId), log[1..][j]) && log[1..][j].guess == r.value;
          assert log[j + 1] == log[1..][j];
        }
      }
      r
  }

  /** Sum of `points` over the puzzles the team has a `correct` row for. */
  function SolvedPoints(puzzles: seq<Puzzle>, log: seq<LogRow>, teamId: nat): int {
    if |puzzles| == 0 then 0
    else
      (if HasSolved(log, teamId, puzzles[0].id) then puzzles[0].points else 0)
      + SolvedPoints(puzzles[1..], log, teamId)
  }

  /** The team has a `correct` row for some puzzle flagged final. */
  predicate FinalSolved(puzzles: seq<Puzzle>, log: seq<LogRow>, teamId: nat) {
    exists k :: 0 <= k < |puzzles| && puzzles[k].isFinal && HasSolved(log, teamId, puzzles[k].id)
  }

  // ---------------------------------------------------------------------
  // Solver-table queries and bulk updates

  function CaptainCount(solvers: seq<Solver>, teamId: nat): nat {
    if |solvers| == 0 then 0
    else (if solvers[0].teamId == teamId && solvers[0].isCaptain then 1 else 0) + CaptainCount(solvers[1..], teamId)
  }

  /** `DELETE FROM solvers WHERE discord_id = identity`. */
  function RemoveIdentity(solvers: seq<Solver>, identity: string): (r: seq<Solver>)
    ensures forall x :: x in r <==> x in solvers && x.identity != identity
  {
    if |solvers| == 0 then []
    else if solvers[0].identity == identity then RemoveIdentity(solvers[1..], identity)
    else [solvers[0]] + RemoveIdentity(solvers[1..], identity)
  }

  /** `DELETE FROM solvers WHERE team_id = teamId`. */
  function RemoveTeamSolvers(solvers: seq<Solver>, teamId: nat): (r: seq<Solver>)
    ensures forall x :: x in r <==> x in solvers && x.teamId != teamId
  {
    if |solvers| == 0 then []
    else if solvers[0].teamId == teamId then RemoveTeamSolvers(solvers[1..], teamId)
    else [solvers[0]] + RemoveTeamSolvers(solvers[1..], teamId)
  }

  /** `UPDATE teams SET ... WHERE team_id = t.id`, the new row being `t`. */
  function ReplaceTeam(teams: seq<Team>, t: Team): (r: seq<Team>)
  {
    seq(|teams|, i requires 0 <= i < |teams| => if teams[i].id == t.id then t else teams[i])
  }

  /** `UPDATE teams SET is_deleted = TRUE WHERE team_id = id`. */
  function MarkDeleted(teams: seq<Team>, id: nat): (r: seq<Team>)
  {
    seq(|teams|, i requires 0 <= i < |teams| => if teams[i].id == id then teams[i].(isDeleted := true) else teams[i])
  }
}
