/** Worked examples of the guess pipeline on the seeded store: team "Alpha"
    (team 1, captain U1) solves Example Puzzle 1 and then misses on
    Example Puzzle 2; and, with one guess left after 49 misses, spends it
    twice through two menus opened before either guess. */
module GuessScenarios {
  import opened Options
  import opened Tokens
  import opened GuessText
  import opened Tables
  import opened Invariants
  import opened TeamDirectory
  import opened TeamInvariants
  import opened GuessEngine
  import opened GuessSequences
  import opened GuessExamples
  import opened Session
  import opened Scenarios

  /** The store after U1 created "Alpha" at time 10. */
  function AlphaStore(): Hunt {
    CreateTeam(Seed(), "U1", "alice", Some("Alpha"), Confirmed, SomeDraws(), 10).0
  }

  /** The fresh team row of "Alpha". */
  function AlphaTeam(): Team {
    FreshTeam(1, "Alpha", GenerateToken(SomeDraws()), 10)
  }

  lemma AlphaCreated()
    ensures AlphaStore().puzzles == SeedPuzzles() && AlphaStore().responses == SeedResponses()
    ensures AlphaStore().teams == [AlphaTeam()] && AlphaStore().log == []
    ensures AlphaStore().solvers == [Solver("U1", "alice", 1, true)]
    ensures MembershipOf(AlphaStore(), "U1") == Some(Membership(Solver("U1", "alice", 1, true), AlphaTeam()))
    ensures WellFormed(AlphaStore())
  {
    SeedWellFormed();
    CreateMakesCaptain(Seed(), "U1", "alice", Some("Alpha"), Confirmed, SomeDraws(), 10);
    CreatePreservesWellFormed(Seed(), "U1", "alice", Some("Alpha"), Confirmed, SomeDraws(), 10);
  }

  lemma ClassifyOnSeed()
    ensures FindPuzzle(SeedPuzzles(), 1) == Some(Puzzle(1, "Example Puzzle 1", 1, false))
    ensures Classify(SeedResponses(), 1, "answer1") == (Correct, "Correct!")
  {
    assert FindResponse(SeedResponses(), 1, "answer1") == Some(Response(1, "answer1", true, "Correct!"));
  }

  /** The first guess, on any store shaped like the one after "Alpha" was
      created. */
  lemma FirstGuess(h: Hunt)
    requires h.puzzles == SeedPuzzles() && h.responses == SeedResponses()
    requires h.teams == [AlphaTeam()] && h.log == []
    requires MembershipOf(h, "U1") == Some(Membership(Solver("U1", "alice", 1, true), AlphaTeam()))
    ensures PuzzleExists(h.puzzles, 1)
    ensures ProcessGuess(h, "U1", 1, "Answer 1!", 20)
         == (h.(log := [LogRow(1, 1, "answer1", Correct, 20)], teams := [AlphaTeam().(score := 1, lastSolveTime := 20)]),
             Accepted("answer1", Correct, "Correct!", None))
  {
    ClassifyOnSeed();
    NormalizeDropsPunctuation();
    var team' := AlphaTeam().(score := 1, lastSolveTime := 20);
    var row := LogRow(1, 1, "answer1", Correct, 20);
    assert SolvedAnswer(h.log, 1, 1) == None;
    assert Count(h.log, GuessFor(1, 1, "answer1")) == 0;
    assert ApplyVerdict(AlphaTeam(), Puzzle(1, "Example Puzzle 1", 1, false), Correct, 20) == team';
    assert ReplaceTeam(h.teams, team') == [team'];
    assert RecordGuess(h, team', row) == h.(log := [row], teams := [team']);
  }

  /** "Answer 1!" on Example Puzzle 1 is its answer: the guess is logged as
      `answer1`, the team earns the puzzle's point at time 20, and a later
      "ANSWER1" is answered "already solved with answer1" and changes
      nothing. */
  lemma SolveFirstPuzzle()
    ensures var (h2, o2) := ProcessGuess(AlphaStore(), "U1", 1, "Answer 1!", 20);
      && o2 == Accepted("answer1", Correct, "Correct!", None)
      && h2.log == [LogRow(1, 1, "answer1", Correct, 20)]
      && h2.teams == [AlphaTeam().(score := 1, lastSolveTime := 20)]
      && ProcessGuess(h2, "U1", 1, "ANSWER1", 30) == (h2, AlreadySolved("answer1", "answer1"))
  {
    AlphaCreated();
    FirstGuess(AlphaStore());
    NormalizeDropsPunctuation();
    NormalizeFoldsCase();
    SolvedStaysSolved(AlphaStore(), "U1", "U1", 1, "Answer 1!", 20, "ANSWER1", 30);
  }

  lemma MissOnSeed()
    ensures FindPuzzle(SeedPuzzles(), 2) == Some(Puzzle(2, "Example Puzzle 2", 1, false))
    ensures Classify(SeedResponses(), 2, "answer1") == (Incorrect, IncorrectReply)
  {
    var r := SeedResponses();
    forall i | 0 <= i < |r| ensures r[i].puzzleId != 2 || r[i].guess != "answer1" {
      if i == 2 {
        assert r[i].guess[6] != "answer1"[6];
      } else if i == 3 {
        assert |r[i].guess| != |"answer1"|;
      } else {
        assert r[i].puzzleId != 2;
      }
    }
  }

  /** The team row after the first puzzle was solved. */
  function AlphaSolvedOne(): Team {
    AlphaTeam().(score := 1, lastSolveTime := 20)
  }

  /** The store after the first puzzle was solved, as far as the second
      guess looks at it. */
  predicate AfterFirstSolve(h: Hunt) {
    && h.puzzles == SeedPuzzles() && h.responses == SeedResponses()
    && h.teams == [AlphaSolvedOne()] && h.log == [LogRow(1, 1, "answer1", Correct, 20)]
    && MembershipOf(h, "U1") == Some(Membership(Solver("U1", "alice", 1, true), AlphaSolvedOne()))
  }

  lemma MissIsAccepted(h: Hunt)
    requires AfterFirstSolve(h)
    ensures PuzzleExists(h.puzzles, 2)
    ensures ProcessGuess(h, "U1", 2, "answer1", 40).1.Accepted?
    ensures ProcessGuess(h, "U1", 2, "answer1", 40).1.verdict == Incorrect
  {
    NormalizeKeepsCanonical();
    MissOnSeed();
    assert SolvedAnswer(h.log, 1, 2) == None;
    assert Count(h.log, GuessFor(1, 2, "answer1")) == 0;
  }

  /** A guess matching no rule of Example Puzzle 2 is logged as incorrect
      and leaves the team 49 guesses; the score is untouched. */
  lemma MissSecondPuzzle(h: Hunt)
    requires AfterFirstSolve(h)
    ensures PuzzleExists(h.puzzles, 2)
    ensures var (h', o) := ProcessGuess(h, "U1", 2, "answer1", 40);
      && o == Accepted("answer1", Incorrect, IncorrectReply, Some(49))
      && h'.log == h.log + [LogRow(2, 1, "answer1", Incorrect, 40)]
      && h'.teams == [AlphaSolvedOne().(numGuesses := 49)]
  {
    MissIsAccepted(h);
    NormalizeKeepsCanonical();
    var team' := AlphaSolvedOne().(numGuesses := 49);
    assert ReplaceTeam(h.teams, team') == [team'];
  }

  lemma FirstSolveReaches()
    ensures PuzzleExists(AlphaStore().puzzles, 1)
    ensures AfterFirstSolve(ProcessGuess(AlphaStore(), "U1", 1, "Answer 1!", 20).0)
  {
    AlphaCreated();
    FirstGuess(AlphaStore());
    var h2 := ProcessGuess(AlphaStore(), "U1", 1, "Answer 1!", 20).0;
    assert h2.solvers == [Solver("U1", "alice", 1, true)];
    assert FindTeam(h2.teams, 1) == Some(AlphaSolvedOne());
  }

  /** The two guesses in a row: after solving Example Puzzle 1 the team has
      one point and all 50 guesses, and after the miss on Example Puzzle 2
      it has one point and 49 guesses. */
  lemma SolveThenMiss()
    ensures var h2 := ProcessGuess(AlphaStore(), "U1", 1, "Answer 1!", 20).0;
      && PuzzleExists(h2.puzzles, 2)
      && var h3 := ProcessGuess(h2, "U1", 2, "answer1", 40).0;
      && h2.teams[0].score == 1 && h2.teams[0].numGuesses == 50
      && h3.teams[0].score == 1 && h3.teams[0].numGuesses == 49
      && |h3.log| == 2
  {
    FirstSolveReaches();
    MissSecondPuzzle(ProcessGuess(AlphaStore(), "U1", 1, "Answer 1!", 20).0);
  }

  // ---------------------------------------------------------------------
  // The last guess spent twice through stale menus

  /** A guess of `k` letters x: guesses of different lengths differ. */
  function Xs(k: nat): string {
    seq(k, _ => 'x')
  }

  lemma XsCanonical(k: nat)
    ensures Normalize(Xs(k)) == Xs(k)
  {
    assert IsCanonical(Xs(k));
    NormalizeFixedPoint(Xs(k));
  }

  /** No response rule of the seed matches a non-empty run of x. */
  lemma XsMissOnSeed(p: nat, k: nat)
    requires k > 0
    ensures Classify(SeedResponses(), p, Xs(k)) == (Incorrect, IncorrectReply)
  {
    var r := SeedResponses();
    forall i | 0 <= i < |r| ensures r[i].puzzleId != p || r[i].guess != Xs(k) {
      assert r[i].guess[0] != 'x';
    }
  }

  /** The first `n` misses of "Alpha" on Example Meta: "x", "xx", "xxx", ... */
  function MetaMisses(n: nat): seq<LogRow> {
    seq(n, i requires 0 <= i < n => LogRow(4, 1, Xs(i + 1), Incorrect, 15))
  }

  /** The `!guess` interactions that log them, all at time 15. */
  function MetaMissEvents(n: nat): seq<Event> {
    seq(n, i requires 0 <= i < n => Event(Guess("U1", 4, Xs(i + 1)), 15))
  }

  /** A log of nothing but team 1's incorrect rows counts every row. */
  lemma {:induction false} AllIncorrectCount(log: seq<LogRow>)
    requires forall i :: 0 <= i < |log| ==> log[i].teamId == 1 && log[i].status == Incorrect
    ensures Count(log, IncorrectBy(1)) == |log|
  {
    if |log| > 0 {
      assert forall i :: 0 <= i < |log| - 1 ==> log[1..][i] == log[i + 1];
      AllIncorrectCount(log[1..]);
    }
  }

  lemma MetaMissesCount(n: nat)
    ensures Count(MetaMisses(n), IncorrectBy(1)) == n
  {
    AllIncorrectCount(MetaMisses(n));
  }

  /** "Alpha" after `n` misses on Example Meta. */
  function MissedStore(n: nat): Hunt {
    Hunt(SeedPuzzles(), SeedResponses(), [AlphaTeam().(numGuesses := InitialGuesses - n)],
         [Solver("U1", "alice", 1, true)], MetaMisses(n), 2)
  }

  lemma MetaMissesSolveNothing(n: nat, puzzles: seq<Puzzle>)
    ensures OneCorrectPerPuzzle(MetaMisses(n))
    ensures SolvedPoints(puzzles, MetaMisses(n), 1) == 0
    ensures !FinalSolved(puzzles, MetaMisses(n), 1)
  {
    var log := MetaMisses(n);
    assert forall i :: 0 <= i < |log| ==> log[i].status == Incorrect;
    if |puzzles| > 0 {
      MetaMissesSolveNothing(n, puzzles[1..]);
    }
  }

  /** The misses are pairwise different guesses, and the next one, of
      `n + 1` letters, is new. */
  lemma MetaMissesDistinct(n: nat)
    ensures GuessesLoggedOnce(MetaMisses(n))
    ensures Count(MetaMisses(n), GuessFor(1, 4, Xs(n + 1))) == 0
    ensures !HasSolved(MetaMisses(n), 1, 4)
  {
    var log := MetaMisses(n);
    assert forall i :: 0 <= i < |log| ==> |log[i].guess| == i + 1 && log[i].status == Incorrect;
  }

  lemma MissedStoreLedger(n: nat)
    ensures var h := MissedStore(n);
      && OneCorrectPerPuzzle(h.log) && GuessesLoggedOnce(h.log)
      && ScoresMatchLog(h) && QuotasMatchLog(h) && HuntFlagsMatchLog(h)
  {
    MetaMissesSolveNothing(n, SeedPuzzles());
    MetaMissesDistinct(n);
    MetaMissesCount(n);
  }

  lemma MissedStoreWellFormed(n: nat)
    requires n <= InitialGuesses
    ensures WellFormed(MissedStore(n))
    ensures MembershipOf(MissedStore(n), "U1") ==
      Some(Membership(Solver("U1", "alice", 1, true), AlphaTeam().(numGuesses := InitialGuesses - n)))
  {
    var h := MissedStore(n);
    SeedWellFormed();
    assert PuzzleIdsAscending(h.puzzles) && ResponsesUnique(h.responses);
    assert LogOnTeams(h) by {
      forall i | 0 <= i < |h.log| ensures FindTeam(h.teams, h.log[i].teamId).Some? {
        assert h.log[i].teamId == 1;
      }
    }
    MissedStoreLedger(n);
  }

  lemma MissThirdOnSeed()
    ensures Classify(SeedResponses(), 3, "answer1") == (Incorrect, IncorrectReply)
  {
    var r := SeedResponses();
    assert r[4].guess == "answer3" && r[5].guess == "keepgoing3";
    forall i | 0 <= i < |r| && r[i].puzzleId == 3 ensures r[i].guess != "answer1" {
      assert i == 4 || i == 5;
      assert r[i].guess[6] != "answer1"[6];
    }
  }

  /** `t`, with id 1, is the only team, and U1 is its captain. */
  predicate SoleTeam(h: Hunt, t: Team) {
    h.teams == [t] && t.id == 1 && h.solvers == [Solver("U1", "alice", 1, true)]
  }

  lemma SoleTeamMembership(h: Hunt, t: Team)
    requires SoleTeam(h, t)
    ensures MembershipOf(h, "U1") == Some(Membership(Solver("U1", "alice", 1, true), t))
  {
    assert FindTeam(h.teams, 1) == Some(t);
  }

  /** A log with no row for puzzle `p` has neither solved it nor seen any
      guess on it. */
  lemma NoRowsForPuzzle(log: seq<LogRow>, teamId: nat, p: nat, g: string)
    requires forall i :: 0 <= i < |log| ==> log[i].puzzleId != p
    ensures SolvedAnswer(log, teamId, p) == None
    ensures Count(log, GuessFor(teamId, p, g)) == 0
  {
    assert !HasSolved(log, teamId, p);
  }

  /** A guess no rule matches, on a puzzle the team has not solved and
      never tried that guess on, is accepted as incorrect: one row is
      logged and the sole team loses one guess. */
  lemma MissOnNewGuess(h: Hunt, t: Team, p: nat, raw: string, now: int)
    requires SoleTeam(h, t)
    requires PuzzleExists(h.puzzles, p)
    requires Classify(h.responses, p, Normalize(raw)).0 == Incorrect
    requires !HasSolved(h.log, 1, p) && Count(h.log, GuessFor(1, p, Normalize(raw))) == 0
    ensures var (h', o) := ProcessGuess(h, "U1", p, raw, now);
      && o == Accepted(Normalize(raw), Incorrect, IncorrectReply, Some(t.numGuesses - 1))
      && h' == h.(teams := [t.(numGuesses := t.numGuesses - 1)],
                  log := h.log + [LogRow(p, 1, Normalize(raw), Incorrect, now)])
  {
    SoleTeamMembership(h, t);
    var t' := t.(numGuesses := t.numGuesses - 1);
    assert ReplaceTeam(h.teams, t') == [t'];
  }

  /** With one guess left, two guesses no rule matches, on puzzles `p1`
      and `p2` the log has no row for and both picked from menus opened
      before either guess, are both accepted as incorrect; the second
      reports -1 guesses remaining. */
  lemma TwoMissesOnLastGuess(h: Hunt, t: Team, p1: nat, raw1: string, p2: nat, raw2: string)
    requires WellFormed(h) && SoleTeam(h, t) && t.numGuesses == 1
    requires PuzzleExists(h.puzzles, p1) && PuzzleExists(h.puzzles, p2) && p1 != p2
    requires Classify(h.responses, p1, Normalize(raw1)).0 == Incorrect
    requires Classify(h.responses, p2, Normalize(raw2)).0 == Incorrect
    requires forall i :: 0 <= i < |h.log| ==> h.log[i].puzzleId != p1 && h.log[i].puzzleId != p2
    ensures var (h1, o1) := ProcessGuess(h, "U1", p1, raw1, 20);
      && o1.Accepted? && o1.remaining == Some(0)
      && var (h2, o2) := ProcessGuess(h1, "U1", p2, raw2, 30);
      && o2.Accepted? && o2.remaining == Some(-1)
      && !QuotasNonNegative(h2)
  {
    NoRowsForPuzzle(h.log, 1, p1, Normalize(raw1));
    MissOnNewGuess(h, t, p1, raw1, 20);
    var h1 := ProcessGuess(h, "U1", p1, raw1, 20).0;
    assert forall i :: 0 <= i < |h1.log| ==> h1.log[i].puzzleId != p2;
    NoRowsForPuzzle(h1.log, 1, p2, Normalize(raw2));
    MissOnNewGuess(h1, t.(numGuesses := 0), p2, raw2, 30);
    SoleTeamMembership(h, t);
    TwoStaleMenus(h, "U1", p1, raw1, 20, p2, raw2, 30);
  }

  lemma MissedStoreShape(n: nat)
    ensures var h := MissedStore(n);
      && SoleTeam(h, AlphaTeam().(numGuesses := InitialGuesses - n))
      && PuzzleExists(h.puzzles, 2) && PuzzleExists(h.puzzles, 3)
      && forall i :: 0 <= i < |h.log| ==> h.log[i].puzzleId != 2 && h.log[i].puzzleId != 3
  {
    var h := MissedStore(n);
    assert FindPuzzle(h.puzzles, 2).Some? && FindPuzzle(h.puzzles, 3).Some?;
    MetaMissesOnMeta(n);
  }

  lemma MetaMissesOnMeta(n: nat)
    ensures forall i :: 0 <= i < |MetaMisses(n)| ==> MetaMisses(n)[i].puzzleId == 4
  {
  }

  /** The seeded hunt with "Alpha" at its last guess after 49 different
      misses on Example Meta is reached from the seed without stale menus
      and is well formed, and "answer1" is a miss on Example Puzzles 2 and
      3, neither of which the log mentions. */
  lemma LastGuessStore()
    ensures var events := [AlphaCreation()] + MetaMissEvents(InitialGuesses - 1);
      && AllAdmissible(SeedPuzzles(), events) && NoStaleSubmit(events) && NoStaleDialogue(events)
      && Run(Seed(), events) == MissedStore(InitialGuesses - 1)
    ensures var h := MissedStore(InitialGuesses - 1);
      && WellFormed(h) && SoleTeam(h, AlphaTeam().(numGuesses := 1))
      && PuzzleExists(h.puzzles, 2) && PuzzleExists(h.puzzles, 3)
      && Classify(h.responses, 2, Normalize("answer1")).0 == Incorrect
      && Classify(h.responses, 3, Normalize("answer1")).0 == Incorrect
      && forall i :: 0 <= i < |h.log| ==> h.log[i].puzzleId != 2 && h.log[i].puzzleId != 3
  {
    SeedReachesMissedStore(InitialGuesses - 1);
    MissedStoreWellFormed(InitialGuesses - 1);
    MissedStoreShape(InitialGuesses - 1);
    NormalizeKeepsCanonical();
    MissOnSeed();
    MissThirdOnSeed();
  }

  /** On that store, "answer1" on Example Puzzles 2 and 3 overdraw the
      quota to -1. */
  lemma LastGuessTwice()
    ensures var h := MissedStore(InitialGuesses - 1);
      && PuzzleExists(h.puzzles, 2) && PuzzleExists(h.puzzles, 3)
      && var (h1, o1) := ProcessGuess(h, "U1", 2, "answer1", 20);
      && o1.Accepted? && o1.remaining == Some(0)
      && var (h2, o2) := ProcessGuess(h1, "U1", 3, "answer1", 30);
      && o2.Accepted? && o2.remaining == Some(-1)
      && !QuotasNonNegative(h2)
  {
    LastGuessStore();
    TwoMissesOnLastGuess(MissedStore(InitialGuesses - 1), AlphaTeam().(numGuesses := 1), 2, "answer1", 3, "answer1");
  }

  /** A `!guess` of the sole team's captain, with a guess left, that
      misses as in `MissOnNewGuess` passes the quota guard and is logged. */
  lemma GuardedMiss(h: Hunt, t: Team, p: nat, raw: string, now: int)
    requires SoleTeam(h, t) && t.numGuesses >= 1
    requires PuzzleExists(h.puzzles, p)
    requires Classify(h.responses, p, Normalize(raw)).0 == Incorrect
    requires !HasSolved(h.log, 1, p) && Count(h.log, GuessFor(1, p, Normalize(raw))) == 0
    ensures Admissible(h.puzzles, Guess("U1", p, raw))
    ensures Step(h, Event(Guess("U1", p, raw), now)).0
         == h.(teams := [t.(numGuesses := t.numGuesses - 1)],
               log := h.log + [LogRow(p, 1, Normalize(raw), Incorrect, now)])
  {
    SoleTeamMembership(h, t);
    MissOnNewGuess(h, t, p, raw, now);
  }

  /** `h` with its only team `t` after `n` misses on Example Meta. */
  function Missed(h: Hunt, t: Team, n: nat): Hunt {
    h.(teams := [t.(numGuesses := InitialGuesses - n)], log := MetaMisses(n))
  }

  /** What the chain of misses needs of its starting store: U1 captains
      team 1, Example Meta exists, and no rule of it matches a run of x. */
  ghost predicate MissBase(h: Hunt, t: Team) {
    && t.id == 1 && h.solvers == [Solver("U1", "alice", 1, true)]
    && PuzzleExists(h.puzzles, 4)
    && forall k: nat :: k > 0 ==> Classify(h.responses, 4, Xs(k)).0 == Incorrect
  }

  /** One more miss: with `n` misses and at least one guess left, the
      `!guess` "x" * (n + 1) on Example Meta passes the quota guard and
      yields the store with `n + 1` misses. */
  lemma MissStep(h: Hunt, t: Team, n: nat)
    requires MissBase(h, t) && n < InitialGuesses
    ensures Admissible(h.puzzles, Guess("U1", 4, Xs(n + 1)))
    ensures Step(Missed(h, t, n), Event(Guess("U1", 4, Xs(n + 1)), 15)).0 == Missed(h, t, n + 1)
  {
    var m := Missed(h, t, n);
    var tn := t.(numGuesses := InitialGuesses - n);
    assert SoleTeam(m, tn);
    XsCanonical(n + 1);
    MetaMissesDistinct(n);
    assert Classify(h.responses, 4, Xs(n + 1)).0 == Incorrect;
    GuardedMiss(m, tn, 4, Xs(n + 1), 15);
    MetaMissesNext(n);
    assert tn.(numGuesses := tn.numGuesses - 1) == t.(numGuesses := InitialGuesses - (n + 1));
  }

  lemma MetaMissesNext(n: nat)
    ensures MetaMisses(n) + [LogRow(4, 1, Xs(n + 1), Incorrect, 15)] == MetaMisses(n + 1)
  {
    var a := MetaMisses(n) + [LogRow(4, 1, Xs(n + 1), Incorrect, 15)];
    var b := MetaMisses(n + 1);
    forall i | 0 <= i < |b| ensures a[i] == b[i] {
      if i < n {
        assert a[i] == MetaMisses(n)[i];
      }
    }
  }

  lemma MetaMissEventsShape(puzzles: seq<Puzzle>, n: nat)
    requires PuzzleExists(puzzles, 4)
    ensures AllAdmissible(puzzles, MetaMissEvents(n))
    ensures NoStaleSubmit(MetaMissEvents(n)) && NoStaleDialogue(MetaMissEvents(n))
    ensures n > 0 ==> MetaMissEvents(n) == MetaMissEvents(n - 1) + [Event(Guess("U1", 4, Xs(n)), 15)]
  {
    if n > 0 {
      var a := MetaMissEvents(n - 1) + [Event(Guess("U1", 4, Xs(n)), 15)];
      var b := MetaMissEvents(n);
      forall i | 0 <= i < |b| ensures a[i] == b[i] {
        if i < n - 1 {
          assert a[i] == MetaMissEvents(n - 1)[i];
        }
      }
    }
  }

  /** From a store with no misses, `n` `!guess` interactions, none of them
      through a stale menu, reach the store with `n` misses. */
  lemma {:induction false} MissesReached(h: Hunt, t: Team, n: nat)
    requires MissBase(h, t) && n <= InitialGuesses
    ensures AllAdmissible(h.puzzles, MetaMissEvents(n))
    ensures Run(Missed(h, t, 0), MetaMissEvents(n)) == Missed(h, t, n)
  {
    MetaMissEventsShape(h.puzzles, n);
    if n > 0 {
      var h0 := Missed(h, t, 0);
      var e := Event(Guess("U1", 4, Xs(n)), 15);
      assert h0.puzzles == h.puzzles;
      MissesReached(h, t, n - 1);
      MissStep(h, t, n - 1);
      RunAppend(h0, MetaMissEvents(n - 1), e);
      assert Run(h0, MetaMissEvents(n)) == Step(Missed(h, t, n - 1), e).0;
    }
  }

  /** The stores of "Alpha" are those of the chain, started right after
      "Alpha" was created. */
  lemma AlphaMissBase(n: nat)
    ensures MissBase(MissedStore(0), AlphaTeam())
    ensures MissedStore(n) == Missed(MissedStore(0), AlphaTeam(), n)
  {
    assert PuzzleExists(SeedPuzzles(), 4) by {
      assert FindPuzzle(SeedPuzzles(), 4).Some?;
    }
    forall k: nat | k > 0 ensures Classify(SeedResponses(), 4, Xs(k)).0 == Incorrect {
      XsMissOnSeed(4, k);
    }
  }

  /** The store with `n` misses is reached from the store right after
      "Alpha" was created by `n` `!guess` interactions, none of them
      through a stale menu. */
  lemma MissedStoreReached(n: nat)
    requires n <= InitialGuesses
    ensures AllAdmissible(SeedPuzzles(), MetaMissEvents(n))
    ensures NoStaleSubmit(MetaMissEvents(n)) && NoStaleDialogue(MetaMissEvents(n))
    ensures Run(MissedStore(0), MetaMissEvents(n)) == MissedStore(n)
  {
    AlphaMissBase(0);
    AlphaMissBase(n);
    MissesReached(MissedStore(0), AlphaTeam(), n);
    MetaMissEventsShape(SeedPuzzles(), n);
  }

  /** ... and the store right after "Alpha" was created is `MissedStore(0)`. */
  lemma AlphaStoreHasNoMisses()
    ensures AlphaStore() == MissedStore(0)
  {
    AlphaCreated();
    assert AlphaTeam().(numGuesses := InitialGuesses) == AlphaTeam();
    assert MetaMisses(0) == [];
  }

  /** U1 creating "Alpha" at time 10. */
  function AlphaCreation(): Event {
    Event(Create("U1", "alice", Some("Alpha"), Confirmed, SomeDraws()), 10)
  }

  /** The store with `n` misses is reached from the seeded hunt: "Alpha"
      is created, then misses `n` times through fresh menus. */
  lemma SeedReachesMissedStore(n: nat)
    requires n <= InitialGuesses
    ensures AllAdmissible(SeedPuzzles(), [AlphaCreation()] + MetaMissEvents(n))
    ensures NoStaleSubmit([AlphaCreation()] + MetaMissEvents(n))
    ensures NoStaleDialogue([AlphaCreation()] + MetaMissEvents(n))
    ensures Run(Seed(), [AlphaCreation()] + MetaMissEvents(n)) == MissedStore(n)
  {
    var events := [AlphaCreation()] + MetaMissEvents(n);
    MissedStoreReached(n);
    AlphaStoreHasNoMisses();
    AlphaRunShape(n);
    assert Step(Seed(), AlphaCreation()).0 == AlphaStore();
  }

  lemma AlphaRunShape(n: nat)
    requires n <= InitialGuesses
    ensures var events := [AlphaCreation()] + MetaMissEvents(n);
      && events[0] == AlphaCreation() && events[1..] == MetaMissEvents(n)
      && AllAdmissible(SeedPuzzles(), events)
      && NoStaleSubmit(events) && NoStaleDialogue(events)
  {
    AlphaMissBase(n);
    MetaMissEventsShape(SeedPuzzles(), n);
    PrependEvent(SeedPuzzles(), AlphaCreation(), MetaMissEvents(n));
  }

  /** A run that starts with one more event. */
  lemma PrependEvent(puzzles: seq<Puzzle>, e: Event, events: seq<Event>)
    requires Admissible(puzzles, e.command) && AllAdmissible(puzzles, events)
    ensures ([e] + events)[0] == e && ([e] + events)[1..] == events
    ensures AllAdmissible(puzzles, [e] + events)
    ensures NoStaleSubmit([e] + events) <==> !e.command.Submit? && NoStaleSubmit(events)
    ensures NoStaleDialogue([e] + events) <==> !IsLateDialogue(e.command) && NoStaleDialogue(events)
  {
    var all := [e] + events;
    assert all[1..] == events;
    assert forall i :: 1 <= i < |all| ==> all[i] == events[i - 1];
  }
}
