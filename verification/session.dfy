/** The bot as a sequential state machine: a run is a list of commands,
    each handled to completion before the next. Starting from the seeded
    store, every store reached without a stale team dialogue is
    consistent; quotas stay non-negative as long as, in addition, every
    guess is submitted on the store its puzzle menu was built on. */
module Session {
  import opened Options
  import opened Tokens
  import opened GuessText
  import opened Tables
  import opened Invariants
  import opened TeamDirectory
  import opened TeamInvariants
  import opened GuessEngine
  import opened GuessInvariants
  import opened GuessSequences
  import SqlText

  /** One user interaction, with the replies the user gave during it.
      `Guess` is a `!guess` whose puzzle menu is used at once, on the store
      the quota guard saw. `Submit` is the guess modal of a menu built
      earlier: `process_guess` runs on the current store without the guard
      (main.py:654-657). Which menus are open is not tracked, so any user
      may submit. `LateCreate` and `LateJoin` are the dialogues of a
      `!team create` or `!team join` whose membership check passed on an
      earlier store: the name or token reply and the insert happen on the
      current store with no second check (main.py:124-180, 212-245). */
  datatype Command =
    | Create(identity: string, displayName: string, nameReply: Option<string>, confirmation: Confirmation, draws: seq<nat>)
    | Join(identity: string, displayName: string, tokenReply: Option<string>)
    | Leave(identity: string)
    | Delete(identity: string, confirmation: Confirmation)
    | Guess(identity: string, puzzleId: nat, raw: string)
    | Submit(identity: string, puzzleId: nat, raw: string)
    | LateCreate(identity: string, displayName: string, nameReply: Option<string>, confirmation: Confirmation, draws: seq<nat>)
    | LateJoin(identity: string, displayName: string, tokenReply: Option<string>)

  /** A command and the time it is handled at. */
  datatype Event = Event(command: Command, now: int)

  datatype Reply = TeamReply(team: TeamOutcome) | GuessReply(guess: SubmitOutcome)

  /** The inputs a command can actually carry: a token drawn from the bank,
      and a puzzle picked from the puzzle menu. */
  predicate Admissible(puzzles: seq<Puzzle>, c: Command) {
    match c
    case Create(_, _, _, _, draws) => ValidDraws(draws)
    case LateCreate(_, _, _, _, draws) => ValidDraws(draws)
    case Guess(_, puzzleId, _) => PuzzleExists(puzzles, puzzleId)
    case Submit(_, puzzleId, _) => PuzzleExists(puzzles, puzzleId)
    case _ => true
  }

  function Step(h: Hunt, e: Event): (r: (Hunt, Reply))
    requires Admissible(h.puzzles, e.command)
    ensures r.0.puzzles == h.puzzles && r.0.responses == h.responses
    ensures h.log <= r.0.log
  {
    match e.command
    case Create(identity, displayName, nameReply, confirmation, draws) =>
      var (h', o) := CreateTeam(h, identity, displayName, nameReply, confirmation, draws, e.now);
      (h', TeamReply(o))
    case Join(identity, displayName, tokenReply) =>
      var (h', o) := JoinTeam(h, identity, displayName, tokenReply);
      (h', TeamReply(o))
    case Leave(identity) =>
      var (h', o) := LeaveTeam(h, identity);
      (h', TeamReply(o))
    case Delete(identity, confirmation) =>
      var (h', o) := DeleteTeam(h, identity, confirmation);
      (h', TeamReply(o))
    case Guess(identity, puzzleId, raw) =>
      var (h', o) := SubmitGuess(h, identity, puzzleId, raw, e.now);
      (h', GuessReply(o))
    case Submit(identity, puzzleId, raw) =>
      var (h', o) := ProcessGuess(h, identity, puzzleId, raw, e.now);
      (h', GuessReply(Processed(o)))
    case LateCreate(identity, displayName, nameReply, confirmation, draws) =>
      var (h', o) := CreateDialogue(h, identity, displayName, nameReply, confirmation, draws, e.now);
      (h', TeamReply(o))
    case LateJoin(identity, displayName, tokenReply) =>
      var (h', o) := JoinDialogue(h, identity, displayName, tokenReply);
      (h', TeamReply(o))
  }

  predicate AllAdmissible(puzzles: seq<Puzzle>, events: seq<Event>) {
    forall i :: 0 <= i < |events| ==> Admissible(puzzles, events[i].command)
  }

  /** The store after handling `events` in order. */
  function Run(h: Hunt, events: seq<Event>): (r: Hunt)
    requires AllAdmissible(h.puzzles, events)
    ensures r.puzzles == h.puzzles && r.responses == h.responses
    ensures h.log <= r.log
    decreases |events|
  {
    if |events| == 0 then h
    else
      var h' := Step(h, events[0]).0;
      assert AllAdmissible(h'.puzzles, events[1..]) by {
        forall i | 0 <= i < |events| - 1 ensures Admissible(h'.puzzles, events[1..][i].command) {
          assert events[1..][i] == events[i + 1];
        }
      }
      Run(h', events[1..])
  }

  /** Once a correct guess is accepted, the puzzle stays solved for the
      team whatever happens next: after any run of further commands, a
      guess on it by whoever is then on that team is answered "already
      solved" with the logged answer and changes nothing. */
  lemma SolveSurvivesRun(h: Hunt, identity: string, puzzleId: nat, raw: string, now: int,
                         events: seq<Event>, teammate: string, raw2: string, now2: int)
    requires PuzzleExists(h.puzzles, puzzleId)
    requires ProcessGuess(h, identity, puzzleId, raw, now).1.Accepted?
    requires ProcessGuess(h, identity, puzzleId, raw, now).1.verdict == Correct
    requires AllAdmissible(h.puzzles, events)
    requires var h2 := Run(ProcessGuess(h, identity, puzzleId, raw, now).0, events);
      && MembershipOf(h2, teammate).Some?
      && MembershipOf(h2, teammate).value.team.id == MembershipOf(h, identity).value.team.id
    ensures var h2 := Run(ProcessGuess(h, identity, puzzleId, raw, now).0, events);
      && PuzzleExists(h2.puzzles, puzzleId)
      && ProcessGuess(h2, teammate, puzzleId, raw2, now2) == (h2, AlreadySolved(Normalize(raw2), Normalize(raw)))
  {
    var h1 := ProcessGuess(h, identity, puzzleId, raw, now).0;
    CorrectGuessSolves(h, identity, puzzleId, raw, now);
    SolvedInLongerLog(h1.log, Run(h1, events), MembershipOf(h, identity).value.team.id, puzzleId,
                      Normalize(raw), teammate, raw2, now2);
  }

  /** No guess of the run goes through a menu built on an earlier store. */
  predicate NoStaleSubmit(events: seq<Event>) {
    forall i :: 0 <= i < |events| ==> !events[i].command.Submit?
  }

  predicate IsLateDialogue(c: Command) {
    c.LateCreate? || c.LateJoin?
  }

  /** No team dialogue of the run outlives its membership check. */
  predicate NoStaleDialogue(events: seq<Event>) {
    forall i :: 0 <= i < |events| ==> !IsLateDialogue(events[i].command)
  }

  /** The command's membership check, if any, still holds on `h`: it is not
      a late dialogue, or its user has no membership on `h` either. */
  predicate CheckStillHolds(h: Hunt, c: Command) {
    IsLateDialogue(c) ==> MembershipOf(h, c.identity).None?
  }

  /** Every command whose membership check still holds keeps the store
      consistent; every such command but a stale submission keeps it well
      formed. */
  lemma StepPreservesWellFormed(h: Hunt, e: Event)
    requires Consistent(h) && Admissible(h.puzzles, e.command)
    ensures CheckStillHolds(h, e.command) ==> Consistent(Step(h, e).0)
    ensures WellFormed(h) && CheckStillHolds(h, e.command) && !e.command.Submit? ==> WellFormed(Step(h, e).0)
  {
    match e.command
    case Create(identity, displayName, nameReply, confirmation, draws) =>
      CreatePreservesWellFormed(h, identity, displayName, nameReply, confirmation, draws, e.now);
    case Join(identity, displayName, tokenReply) =>
      JoinPreservesWellFormed(h, identity, displayName, tokenReply);
    case Leave(identity) =>
      LeavePreservesWellFormed(h, identity);
    case Delete(identity, confirmation) =>
      DeletePreservesWellFormed(h, identity, confirmation);
    case Guess(identity, puzzleId, raw) =>
      SubmitGuessPreservesWellFormed(h, identity, puzzleId, raw, e.now);
    case Submit(identity, puzzleId, raw) =>
      ProcessGuessPreservesConsistent(h, identity, puzzleId, raw, e.now);
    case LateCreate(identity, displayName, nameReply, confirmation, draws) =>
      if MembershipOf(h, identity).None? {
        CreatePreservesWellFormed(h, identity, displayName, nameReply, confirmation, draws, e.now);
      }
    case LateJoin(identity, displayName, tokenReply) =>
      if MembershipOf(h, identity).None? {
        JoinPreservesWellFormed(h, identity, displayName, tokenReply);
      }
  }

  /** A late dialogue whose user is a member by now, and that creates a
      team or joins one, gives that user a second solver row. */
  lemma StaleDialogueDuplicates(h: Hunt, e: Event)
    requires Consistent(h) && Admissible(h.puzzles, e.command)
    requires !CheckStillHolds(h, e.command)
    requires Step(h, e).1.TeamReply? && (Step(h, e).1.team.Created? || Step(h, e).1.team.Joined?)
    ensures !OneSolverPerIdentity(Step(h, e).0.solvers)
  {
    var c := e.command;
    if c.LateCreate? {
      CreateDialogueKeepsIdentitiesIff(h, c.identity, c.displayName, c.nameReply, c.confirmation, c.draws, e.now);
    } else {
      JoinDialogueKeepsIdentitiesIff(h, c.identity, c.displayName, c.tokenReply);
    }
  }

  /** Every run without stale dialogues keeps the store consistent, and a
      run without stale dialogues or stale submissions keeps it well
      formed. */
  lemma {:induction false} RunPreservesWellFormed(h: Hunt, events: seq<Event>)
    requires Consistent(h) && AllAdmissible(h.puzzles, events)
    requires NoStaleDialogue(events)
    ensures Consistent(Run(h, events))
    ensures WellFormed(h) && NoStaleSubmit(events) ==> WellFormed(Run(h, events))
    decreases |events|
  {
    if |events| > 0 {
      StepPreservesWellFormed(h, events[0]);
      AdmissibleTail(h, events);
      assert NoStaleDialogue(events[1..]) by {
        forall i | 0 <= i < |events| - 1 ensures !IsLateDialogue(events[1..][i].command) {
          assert events[1..][i] == events[i + 1];
        }
      }
      if NoStaleSubmit(events) {
        assert NoStaleSubmit(events[1..]) by {
          forall i | 0 <= i < |events| - 1 ensures !events[1..][i].command.Submit? {
            assert events[1..][i] == events[i + 1];
          }
        }
      }
      RunPreservesWellFormed(Step(h, events[0]).0, events[1..]);
    }
  }

  /** Handling one more event after a run is a longer run. */
  lemma {:induction false} RunAppend(h: Hunt, events: seq<Event>, e: Event)
    requires AllAdmissible(h.puzzles, events) && Admissible(h.puzzles, e.command)
    ensures AllAdmissible(h.puzzles, events + [e])
    ensures Run(h, events + [e]) == Step(Run(h, events), e).0
    decreases |events|
  {
    var all := events + [e];
    assert forall i :: 0 <= i < |events| ==> all[i] == events[i];
    assert all[|events|] == e;
    if |events| == 0 {
      assert all == [e];
    } else {
      AdmissibleTail(h, events);
      assert all[1..] == events[1..] + [e];
      RunAppend(Step(h, events[0]).0, events[1..], e);
    }
  }

  lemma AdmissibleTail(h: Hunt, events: seq<Event>)
    requires |events| > 0 && AllAdmissible(h.puzzles, events)
    ensures Admissible(h.puzzles, events[0].command)
    ensures AllAdmissible(Step(h, events[0]).0.puzzles, events[1..])
  {
    assert Step(h, events[0]).0.puzzles == h.puzzles;
    forall i | 0 <= i < |events| - 1 ensures Admissible(h.puzzles, events[1..][i].command) {
      assert events[1..][i] == events[i + 1];
    }
  }

  // ---------------------------------------------------------------------
  // The seeded store (db-creation.py, `populate_tables`)

  function SeedPuzzles(): seq<Puzzle> {
    [ Puzzle(1, "Example Puzzle 1", 1, false),
      Puzzle(2, "Example Puzzle 2", 1, false),
      Puzzle(3, "Example Puzzle 3", 1, false),
      Puzzle(4, "Example Meta", 1, true) ]
  }

  /** The response rules, with the final reply as the seed evidently means
      it (its SQL constant does not double the apostrophe; see `SqlText`). */
  function SeedResponses(): seq<Response> {
    [ Response(1, "answer1", true, "Correct!"),
      Response(1, "keepgoing1", false, "Keep going!"),
      Response(2, "answer2", true, "Correct!"),
      Response(2, "keepgoing2", false, "Keep going!"),
      Response(3, "answer3", true, "Correct!"),
      Response(3, "keepgoing3", false, "Keep going!"),
      Response(4, "metaanswer", true, SqlText.FinalReply),
      Response(4, "metakeepgoing", false, "Keep going!") ]
  }

  /** The store right after setup: puzzles and responses, no teams yet, and
      the team serial starting at 1. */
  function Seed(): Hunt {
    Hunt(SeedPuzzles(), SeedResponses(), [], [], [], 1)
  }

  lemma SeedWellFormed()
    ensures WellFormed(Seed())
  {
    var r := SeedResponses();
    forall i, j | 0 <= i < j < |r| ensures r[i].puzzleId != r[j].puzzleId || r[i].guess != r[j].guess {
      assert r[i].puzzleId == (i / 2) + 1 && r[j].puzzleId == (j / 2) + 1;
      if i / 2 == j / 2 {
        assert i + 1 == j && i % 2 == 0;
        assert r[i].isAnswer && !r[j].isAnswer;
      }
    }
  }

  /** Every store reachable from the seed without a stale team dialogue
      keeps the table invariants: one solver row per identity, one captain
      per live team, at most one correct row per (team, puzzle), scores
      equal to the points of the solved puzzles, quotas equal to 50 less the
      incorrect guesses. Quotas are never negative when, in addition, no
      guess was submitted through a stale menu. `GuessSequences.TwoStaleMenus`
      shows how a quota can go negative, and `Scenarios.OverlappingCreates`
      how a user can end up with two solver rows. */
  lemma ReachableInvariants(events: seq<Event>)
    requires AllAdmissible(SeedPuzzles(), events)
    ensures var h := Run(Seed(), events);
      NoStaleDialogue(events) ==>
      && OneSolverPerIdentity(h.solvers)
      && OneCaptainPerLiveTeam(h)
      && OneCorrectPerPuzzle(h.log)
      && (forall i :: 0 <= i < |h.teams| ==> h.teams[i].score == SolvedPoints(h.puzzles, h.log, h.teams[i].id))
      && (forall i :: 0 <= i < |h.teams| ==>
            h.teams[i].numGuesses == InitialGuesses - Count(h.log, IncorrectBy(h.teams[i].id)))
      && (NoStaleSubmit(events) ==> forall i :: 0 <= i < |h.teams| ==> h.teams[i].numGuesses >= 0)
  {
    if NoStaleDialogue(events) {
      SeedWellFormed();
      RunPreservesWellFormed(Seed(), events);
    }
  }
}
