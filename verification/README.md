# hunt-bot puzzle-hunt logic in Dafny

hunt-bot is a Discord bot for running a puzzle hunt. Solvers register in
teams: a captain creates a team and gets a join token, and others join with
that token. Teams pick a puzzle from a menu and type guesses. Each guess is
normalised, matched against the puzzle's response rules, logged, and then
debits the team's guess quota or credits its score. The bot also shows a
leaderboard and a puzzle dashboard. All of this state lives in five
PostgreSQL tables: puzzles, responses, teams, solvers and the guess log.

This project models that logic without SQL or Discord. The store is the
immutable record `Tables.Hunt`, holding one sequence per table in storage
order, so "the first row a query returns" is the first matching element.
Each bot command is a pure function from a store to a new store and the
outcome reported to the user. The modules are:

- `Tokens`: join-token generation. The random draws are an input.
- `GuessText`: guess normalisation.
- `Tables`, `Invariants`: the store, its queries, and the table invariants.
- `TeamDirectory`, `TeamInvariants`: `!team create/join/leave/delete`.
- `GuessEngine`, `GuessInvariants`, `GuessSequences`: `process_guess` and the
  quota guard of `gather_guess`.
- `Leaderboard`: the leaderboard order and ranks, with an insertion sort
  proved to produce an ordered permutation.
- `PuzzleDashboard`: the per-puzzle counts and the answers shown.
- `Session`: runs of commands from the seeded store, and the invariants of
  the stores they reach.
- `SqlText`: SQL string constants, used for one seed row. See Findings.
- `Scenarios`, `GuessScenarios`, `GuessExamples`: worked examples on the
  seeded data.

Inputs that the bot obtains through I/O become parameters:
- a typed reply is an `Option<string>`, where `None` is the 60-second timeout;
- the reaction to a confirmation prompt is a `Confirmation`, where
  `NoReaction` is the 15-second timeout;
- the eight token draws are a sequence of bank indices;
- the current time is an integer.

Where the repository's documentation and the code differ, the model follows
the code:
- `!team join` looks the token up in all teams, deleted ones included
  (main.py:228). A deleted team's token therefore still admits new members,
  which `Scenarios.DeletedTeamTokenStillJoins` shows.
- `process_guess` never checks the quota; only `gather_guess` does, when
  it builds the puzzle menu (main.py:687-690). The guess itself is
  processed later, when the modal is submitted (main.py:654-657). A team
  with one guess left can open two menus and miss through both, reaching -1
  guesses (`GuessSequences.TwoStaleMenus`, and `GuessScenarios.LastGuessTwice`
  on the seeded puzzles). `Session` therefore has two
  guess commands: `Guess`, a menu used at once on the store the guard saw,
  and `Submit`, the modal of a menu built earlier, which runs
  `process_guess` with no guard. Quotas are non-negative only for runs
  without `Submit`. See Findings.
- `!team create` and `!team join` check membership once, at the start
  (main.py:106-122, 194-210). The insert comes up to 75 seconds later, after
  the name or token reply and the confirmation, with no second check
  (main.py:160-173, 237-243), and `solvers.discord_id` is not unique
  (db-creation.py:25-30). A user who runs two dialogues at once can end up
  with two solver rows (`Scenarios.OverlappingCreates`). `Session` therefore
  also has `LateCreate` and `LateJoin`: a dialogue that finishes on the
  current store after its check passed on an earlier one. Every store
  reached without them is consistent. See Findings.

## Model

| member | source | states |
|---|---|---|
| Tokens.BankCharacterised | main.py:36-37 | a character is in the token bank exactly when it is an ASCII letter or digit other than I, O, l, 0 and 1 |
| Tokens.GenerateToken | main.py:35-38 | a generated token has 8 characters, each from the bank, so none is I, O, l, 0 or 1 |
| Tokens.EveryTokenGenerable | main.py:35-38 | conversely, every 8-character string over the bank is produced by some choice of draws |
| GuessText.StripNonAlnum | main.py:532 | the regular-expression substitution keeps every ASCII letter and digit as often as it occurs, and nothing else; it never lengthens the text |
| GuessText.NormalizeChar | main.py:532-533 | a single letter or digit normalises to itself lower-cased, and any other character to nothing; with `NormalizeConcat` this fixes the normal form of every string |
| GuessText.NormalizeDropsNonAlnum | main.py:532 | inserting a non-alphanumeric character anywhere in a guess does not change its normal form |
| GuessText.Normalize | main.py:532-533 | a normalised guess consists of [a-z0-9] only and is no longer than the raw input |
| GuessText.NormalizeFixedPoint | main.py:532-533 | a string is its own normal form if and only if it consists of [a-z0-9] only |
| GuessText.NormalizeIdempotent | main.py:532-533 | normalising twice gives the same result as normalising once |
| GuessText.StripConcat | main.py:532 | stripping distributes over concatenation |
| GuessText.NormalizeConcat | main.py:532-533 | normalisation distributes over concatenation, so punctuation between two parts neither joins nor splits them |
| GuessText.NormalizeIgnoresCase | main.py:533 | lower-casing a guess first does not change its normal form |
| GuessExamples.NormalizeKeepsCanonical | main.py:532-533 | "answer1" normalises to itself |
| GuessExamples.NormalizeFoldsCase | main.py:533 | "ANSWER1" normalises to "answer1" |
| GuessExamples.NormalizeDropsPunctuation | main.py:532 | "Answer 1!" normalises to "answer1" |
| Tables.FreshTeam | db-creation.py:31-40 | a new team row starts with 50 guesses, score 0, not solved, not deleted, and no hunt finish time |
| Tables.LookupMember | main.py:108-112 | the membership lookup returns a solver row of that identity (a captain's row for the delete query) together with its team row; it finds nothing exactly when no such row has a team |
| Tables.FindTeamByToken | main.py:228-231 | the token lookup returns the first team in storage order that holds the token, deleted or not, and finds nothing exactly when no team holds it |
| Tables.FindResponse | main.py:536-547 | the response lookup returns a rule of that puzzle for exactly that normalised guess, and finds nothing exactly when no such rule exists |
| Tables.Count | main.py:446-448 | a log count is zero exactly when no log row matches the filter, and never exceeds the log length |
| Tables.SolvedAnswer | main.py:558-566 | the solved-answer query returns a value exactly when the team has a correct row for the puzzle, and the value is the guess of such a row |
| Tables.RemoveIdentity | main.py:276-278 | deleting by identity keeps exactly the solver rows of other identities |
| Tables.RemoveTeamSolvers | main.py:322-324 | deleting by team keeps exactly the solver rows of other teams |
| Invariants.MembershipIsSolverRow | main.py:108-112 | in a consistent store, an identity with a solver row is a member, and the lookup returns that row |
| Invariants.CountAppend | main.py:592-595 | appending a log row adds one to every count whose filter matches it and nothing to the others |
| Invariants.SolvedPointsFirstSolve | main.py:610-615 | the first correct row of a team for a puzzle adds exactly that puzzle's points to the team's solved points |
| Invariants.GuessLoggedAtMostOnce | main.py:557-595 | while no normalised guess is logged twice for a team and puzzle, each one is logged at most once |
| Invariants.AtMostOneCorrectRow | main.py:558-571 | while the one-correct-row invariant holds, a team has at most one correct row per puzzle |
| TeamDirectory.CreateTeam | main.py:102-178 | a registered user is told their current team and captaincy, and nothing changes; anyone else goes through the naming dialogue. A team is created exactly when the user is not registered, gave a name of at most 30 characters, and confirmed. The creation appends one fresh team with a valid token and one captain row under the next serial id. A name that is too long, a decline or a timeout changes nothing |
| TeamDirectory.CreateDialogue | main.py:124-180 | after the membership check: a name of more than 30 characters is refused with its length; a name of at most 30 is created on confirmation and cancelled on a decline. A creation appends one fresh team with a valid token and one captain row under the next serial id, whatever the solver table holds. Anything else changes nothing |
| TeamDirectory.JoinTeam | main.py:190-244 | a registered user is refused and nothing changes; anyone else goes through the token dialogue. An unknown token is reported exactly when no team holds it. The user joins exactly when some team holds it, and then one non-captain row is appended on the team the token lookup returns. Nothing else changes |
| TeamDirectory.JoinDialogue | main.py:212-245 | after the membership check: no reply is a timeout, an unknown token is reported exactly when no team holds it, and otherwise one non-captain row is appended on the first team holding the token, whatever the solver table holds. Nothing else changes |
| TeamDirectory.LeaveTeam | main.py:252-279 | non-members and captains are refused. A member who is not a captain leaves, which removes exactly the rows of their identity. Nothing else changes |
| TeamDirectory.DeleteTeam | main.py:284-338 | only a captain may delete. On confirmation every solver row of the team is removed and the team row is marked deleted. A decline or timeout changes nothing |
| TeamInvariants.CreatePreservesWellFormed | main.py:163-173 | creating a team keeps the store consistent: one row per identity, one captain per live team, scores, quotas and hunt flags matching the log. It also keeps quotas non-negative |
| TeamInvariants.JoinPreservesWellFormed | main.py:240-243 | joining keeps the store consistent and quotas non-negative |
| TeamInvariants.LeavePreservesWellFormed | main.py:276-278 | leaving keeps the store consistent and quotas non-negative |
| TeamInvariants.DeletePreservesWellFormed | main.py:319-330 | deleting keeps the store consistent and quotas non-negative: the deleted team has no captain left and its log rows stay |
| TeamInvariants.CreateMakesCaptain | main.py:170-173 | after a creation the creator is a member of the new team, as its captain |
| TeamInvariants.JoinMakesMember | main.py:237-243 | after a join the user is a non-captain member of the team holding the token |
| TeamInvariants.AppendKeepsDistinctIff | db-creation.py:25-30 | the solver table has no uniqueness constraint on the identity, so an insert keeps one row per identity exactly when that identity has no row yet |
| TeamInvariants.CreateDialogueKeepsIdentitiesIff | main.py:160-173 | on a consistent store, a confirmed create dialogue keeps one solver row per identity if and only if its user had no membership when the insert ran |
| TeamInvariants.JoinDialogueKeepsIdentitiesIff | main.py:237-243 | on a consistent store, a join dialogue that finds its team keeps one solver row per identity if and only if its user had no membership when the insert ran |
| TeamInvariants.StaleJoinKeepsOldTeam | main.py:108-112 | a join dialogue that finishes after its user became a member leaves that user's membership as it was, since the lookup returns their first row |
| TeamInvariants.LeaveEndsOnlyOwnMembership | main.py:273-278 | after leaving, the user is no member, and every other user's membership is unchanged |
| TeamInvariants.DeleteEndsTeamMemberships | main.py:319-330 | after a deletion no member of the team remains a member, the team row is kept with the deleted flag set, and the log is unchanged |
| GuessEngine.Classify | main.py:574-583 | a guess is incorrect, with the fixed reply, exactly when no rule matches. Otherwise the rule's reply is sent, and the verdict is correct exactly when the rule is an answer (partial otherwise) |
| GuessEngine.ApplyVerdict | main.py:597-623 | an incorrect guess costs exactly one guess. A partial guess changes nothing. A correct guess adds the puzzle's points and sets the last solve time, and also the hunt flag and finish time when the puzzle is final. Id, name, token and deleted flag never change |
| GuessEngine.ProcessGuess | main.py:501-623 | it never checks the quota. Unregistered users are refused. A solved puzzle is answered with a logged correct answer. On an unsolved puzzle, a guess already logged for that team is a duplicate. Duplicates and accepted guesses get the verdict and reply of the matching rule. Only an accepted guess writes: it appends exactly one log row with the normalised guess and verdict and updates exactly the guesser's team row. The remaining quota is reported after an incorrect guess. Puzzles, responses and solvers never change |
| GuessEngine.GatherGuess | main.py:678-696 | unregistered users and teams with fewer than one guess are refused; otherwise the menu offers exactly the existing puzzle ids |
| GuessEngine.SubmitGuess | main.py:686-690 | a guess is processed only when the menu was offered, hence only with at least one guess left; a refusal changes nothing |
| GuessInvariants.RecordKeepsOneCorrect | main.py:568-595 | logging a row keeps at most one correct row per team and puzzle when a correct row is only logged for an unsolved puzzle |
| GuessInvariants.RecordKeepsGuessesOnce | main.py:557-595 | logging a guess that the duplicate check found absent keeps every (team, puzzle, normalised guess) logged at most once |
| GuessInvariants.RecordKeepsLedger | main.py:592-623 | an accepted guess keeps every team's score equal to the points of its solved puzzles, its quota equal to 50 less its incorrect rows, and its hunt flags equal to whether it solved a final puzzle |
| GuessInvariants.ProcessGuessPreservesConsistent | main.py:501-623 | processing a guess keeps every table invariant except the non-negative quota |
| GuessInvariants.SubmitGuessPreservesWellFormed | main.py:686-690 | with the quota guard evaluated on the store the guess is recorded in, a guess keeps the store consistent and quotas non-negative |
| GuessSequences.SolvedAnswerExtend | main.py:558-566 | rows logged after a team's correct row for a puzzle do not change the answer the solved-answer query returns |
| GuessSequences.SolvedStaysSolved | main.py:558-571 | once a correct guess is accepted, the next guess on that puzzle by any member of the team is answered "already solved" with that answer and changes nothing |
| GuessSequences.SolvedInLongerLog | main.py:558-571 | a logged answer is still found in any longer log, so a guess on that puzzle by a member of the team is answered "already solved" with it |
| Session.SolveSurvivesRun | main.py:558-571 | once a correct guess is accepted, after any run of further commands, a guess on that puzzle by whoever is then on the team is answered "already solved" with that answer and changes nothing |
| Session.Step | main.py:592-595 | no command changes the puzzles or the response rules, and no command removes or rewrites a log row: the old log is a prefix of the new one |
| Session.Run | main.py:592-595 | over a whole run, puzzles and response rules stay fixed and the log only grows at its end |
| GuessSequences.SameGuessLoggedOnce | main.py:586-589 | repeating an accepted guess (after normalisation) changes nothing; it is a duplicate unless the first was correct. The log holds that guess exactly once |
| GuessSequences.StaleMenuOverdraws | main.py:598-602 | a team with no guesses left that still submits an incorrect guess is debited to -1 guesses |
| GuessSequences.TwoStaleMenus | main.py:654-657 | for a team with one guess left, both menus pass the quota guard, and two incorrect guesses submitted through them leave the team at -1 guesses |
| Leaderboard.LiveTeams | main.py:358 | the listed teams are exactly the teams not marked deleted |
| Leaderboard.Insert | main.py:358-359 | inserting a team into an ordered list keeps it ordered and adds exactly that team |
| Leaderboard.SortTeams | main.py:358-359 | the sort returns a permutation of its input, ordered by hunt finish time (unfinished last), then score descending, then last solve time ascending |
| Leaderboard.Standings | main.py:358-377 | the leaderboard rows are the live teams in that order, as a permutation, ranked 1, 2, ... consecutively |
| Leaderboard.StandingsListLiveTeams | main.py:358 | a team appears on the leaderboard if and only if it is in the store and not deleted |
| Leaderboard.HuntFinishColumnShown | main.py:364-381 | the "Hunt Finish" column is shown exactly when some team that is not deleted has finished the hunt |
| Leaderboard.FinishersRankFirst | main.py:358-359 | every team that finished the hunt ranks above every team that did not, and among finishers no team ranks above one that finished earlier |
| PuzzleDashboard.ViewerTeam | main.py:420-434 | the dashboard shows a team's answers only in a direct message with a registered user, and then that user's team |
| PuzzleDashboard.Lines | main.py:438-470 | one line per puzzle in order, numbered from 1. Solves count correct rows and guesses count incorrect rows. An answer is shown exactly when the viewing team has a correct row, and it is that row's guess |
| PuzzleDashboard.AnswerColumnShown | main.py:456-474 | the "Answer" column is shown exactly when the dashboard is viewed in a direct message by a registered user whose team solved some puzzle |
| PuzzleDashboard.CountsPartition | main.py:446-448 | the solve, guess and partial counts of a puzzle add up to all its log rows, so a partial row counts toward neither column |
| PuzzleDashboard.DashboardAgreesWithGuess | main.py:436-466 | in a direct message, the dashboard shows an answer for a puzzle exactly when a guess on it would be answered "already solved", and it shows the same answer |
| Session.StepPreservesWellFormed | main.py:654-657 | every command whose membership check still holds keeps the store consistent, and all of them except a stale `Submit` also keep quotas non-negative |
| Session.StaleDialogueDuplicates | main.py:160-173 | a late create or join dialogue whose user is a member by the time it finishes, and which creates or joins a team, leaves that user with two solver rows |
| Session.RunPreservesWellFormed | main.py:686-690 | every run without stale team dialogues keeps the store consistent. If it has no stale submissions either, so every guess passes the quota guard on its own store, it also keeps quotas non-negative |
| Session.SeedWellFormed | db-creation.py:50-65 | the seeded store (four puzzles, eight rules, no teams) satisfies the table invariants |
| Session.ReachableInvariants | db-creation.py:50-65 | every store reachable from the seed without a stale team dialogue has one solver row per identity, one captain per live team, and at most one correct row per team and puzzle. Scores equal the points of solved puzzles, and quotas equal 50 less the incorrect guesses. Quotas are never negative when no guess went through a stale menu |
| SqlText.ReadQuoted | db-creation.py:57-65 | quoting round-trips: reading the SQL constant for any value gives back that value and stops after its closing quote |
| SqlText.FinalReplyAsWrittenCloses | db-creation.py:64 | the final puzzle's reply constant, as written, closes after "Correct! You" and leaves `ve finished the hunt!'` outside the constant |
| SqlText.FinalReplyQuoted | db-creation.py:64 | with its apostrophe doubled, the constant reads back as "Correct! You've finished the hunt!" |
| Scenarios.CreateTwice | main.py:108-122 | on the seed, U1 creates team 1 with an 8-character token free of ambiguous characters, and a second create is refused as "already a captain" |
| Scenarios.JoinLeaveScenario | main.py:252-279 | a member joins with the token as a non-captain and leaves again, leaving the team rows unchanged, while the captain cannot leave |
| Scenarios.DeletedTeamTokenStillJoins | main.py:228-231 | after its captain deletes a team, its token still lets a new user join it |
| Scenarios.OverlappingCreates | main.py:106-173 | two create dialogues of U1 both pass their check on the seed. The first creates "Alpha", the second finishes later and creates "Beta", and U1 is left with two captain rows |
| GuessScenarios.SolveFirstPuzzle | main.py:558-571 | "Answer 1!" solves Example Puzzle 1 for one point and is logged as "answer1". A later "ANSWER1" is answered "already solved with answer1" and changes nothing |
| GuessScenarios.SolveThenMiss | main.py:597-615 | after that solve, a miss on Example Puzzle 2 leaves the team one point and 49 guesses, with two log rows |
| GuessScenarios.MissedStoreWellFormed | main.py:596-601 | a store in which the only team has `n` (at most 50) incorrect log rows and 50 - `n` guesses left is well formed, and U1 is a member of that team |
| GuessScenarios.MissOnNewGuess | main.py:557-601 | a guess that matches no rule, on a puzzle the team has not solved and with that text not yet logged for it, is accepted as incorrect. It appends one incorrect row and leaves the sole team with one guess fewer |
| GuessScenarios.GuardedMiss | main.py:686-690 | such a miss sent through `!guess` while the team has a guess left passes the quota guard and is logged |
| GuessScenarios.MissStep | main.py:596-601 | on a store whose only team is captained by U1 and has `n` distinct misses on Example Meta, a `!guess` of a new wrong answer passes the guard and gives the store with `n + 1` misses |
| GuessScenarios.MissesReached | main.py:686-690 | on such a store, `n` `!guess` interactions with different wrong answers take the team from no misses to `n` misses |
| GuessScenarios.SeedReachesMissedStore | main.py:686-690 | the store with `n` distinct misses is reached from the seed by creating "Alpha" and guessing `n` different wrong answers through fresh menus, with no stale submission or dialogue |
| GuessScenarios.TwoMissesOnLastGuess | main.py:654-657 | when the team has one guess left, two unmatched guesses on two fresh puzzles, submitted through menus opened earlier, are both accepted. The second reports -1 guesses and the store has a negative quota |
| GuessScenarios.LastGuessStore | main.py:686-690 | the seeded hunt with "Alpha" at one guess after 49 different misses on Example Meta is reached from the seed through fresh menus only, and is well formed, so the menu guard admits the team. "answer1" matches no rule of Example Puzzles 2 and 3 |
| GuessScenarios.LastGuessTwice | main.py:654-657 | on that store, "answer1" on Example Puzzle 2 and then on Example Puzzle 3 is accepted both times, reporting 0 and then -1 guesses remaining, and the final store has a negative quota |

## Left out

- The Discord layer: command registration and help text, the direct-message
  and role checks, the dropdown and modal classes, `on_ready`, and the
  wording of messages. Outcomes are tags carrying the data the messages
  show.
- psycopg2 connections, `load_config` and the environment. The store is an
  in-memory record. Each command runs to completion before the next, so
  the lost updates that concurrent read-then-write of `score` and
  `num_guesses` would allow are not modelled.
- `random.choice`. The eight draws are an input, and
  `Tokens.EveryTokenGenerable` shows that every token is reachable.
- `calculate_width`, `pad_to_width` and the table rendering. They depend on
  the wcwidth library and on floating point.
- `strftime` formatting. Timestamps are integers.
- Solver serial ids and the response and guess-log ids. Nothing reads them.
- `Tables.SolvedAnswer`: it returns the first correct row's guess, while the
  source takes `MAX(guess)` over the correct rows (main.py:559) and the
  dashboard keeps the last row it reads (main.py:443). The three agree
  whenever a team has at most one correct row per puzzle, which
  `Session.ReachableInvariants` proves for every store reached without a
  stale team dialogue.
- `GuessEngine.GatherGuess`: it offers every puzzle id. The source builds
  the menu as a dictionary keyed by puzzle name (main.py:696), which would
  hide all but one of several puzzles sharing a name.
- `GuessEngine.ProcessGuess`: it requires the puzzle to exist, since the id
  always comes from the puzzle menu. The `bad_puzzle` status (main.py:538)
  is therefore not modelled.
- `TeamDirectory.CreateTeam`: token uniqueness is not enforced (the source
  leaves it as a TODO at main.py:154), and a join takes the first team with
  the token.
- Team-name lengths are counted in Dafny characters, one per code point,
  like Python's `len`.
- The 100-character limit of the guess text field (main.py:651) is not
  modelled; any raw guess is accepted.
- `score` and `num_guesses` are 32-bit PostgreSQL `INTEGER` columns
  (db-creation.py:35-36). An `UPDATE` that leaves that range
  (main.py:600-615) fails and rolls back the guess. The model's integers are
  unbounded, so this error path is not modelled.
- `Session.ReachableInvariants`: after a stale `LateCreate` or `LateJoin`
  the model promises none of the table invariants, because a user with two
  solver rows breaks the one-row-per-identity invariant that the other proofs
  build on. `Session.StepPreservesWellFormed` still covers a late dialogue
  whose user has no membership when it finishes.
- `Session.LateCreate` and `Session.LateJoin` do not track which dialogues
  are open, just as `Session.Submit` does not track menus.
- `Session.Submit` does not track which puzzle menus are open. Any user may
  submit a guess for any existing puzzle, and `process_guess` still refuses
  unregistered users.

## Findings

| source | as written | input that shows it | evidently intended | confidence | as-written member | corrected member |
|---|---|---|---|---|---|---|
| db-creation.py:64 | the reply constant `'Correct! You've finished the hunt!'` keeps a single apostrophe inside it | the constant itself: it closes after `Correct! You`, and `ve finished the hunt!'` follows as bare text. The `INSERT` of the response rules is then not valid SQL, and the transaction of `populate_tables` is rolled back | `'Correct! You''ve finished the hunt!'`, with the apostrophe doubled | high; not executed | SqlText.FinalReplyAsWrittenCloses | SqlText.FinalReplyQuoted |
| main.py:686-690 | the quota is checked only when the puzzle menu is built, and `process_guess` (main.py:598-602) debits without checking again | a team with 1 guess left sends `!guess` twice, then submits an incorrect guess through each menu: 1, then 0, then -1 guesses. On the seeded puzzles, `GuessScenarios.LastGuessStore` reaches that team from the seed by 49 different misses, and `GuessScenarios.LastGuessTwice` takes it to -1 | a team with no guesses left cannot have a guess recorded, so the check runs when the guess is processed | medium; not executed | GuessSequences.TwoStaleMenus | GuessEngine.SubmitGuess |
| main.py:160-173 | `!team create` inserts its captain row, and `!team join` (main.py:237-243) its member row, without re-checking the membership tested before the dialogue (main.py:106-122, 194-210); `solvers.discord_id` is not unique | U1 sends `!team create` twice before answering either, then names and confirms "Alpha" and "Beta": U1 has two captain rows (`Scenarios.OverlappingCreates`) | one solver row per user, so the check and the insert see the same store | medium; not executed | TeamInvariants.CreateDialogueKeepsIdentitiesIff | TeamInvariants.CreatePreservesWellFormed |

The seeded store `Session.Seed` uses the intended reply text
`SqlText.FinalReply`. `GuessEngine.SubmitGuess` runs the quota check on the
store the guess is recorded in. `GuessInvariants.SubmitGuessPreservesWellFormed`
proves that quotas then stay non-negative. `Session.Guess` uses it, while
`Session.Submit` keeps the behaviour as written. Likewise `Session.Create`
and `Session.Join` run the check and the insert on one store, and
`TeamInvariants.CreatePreservesWellFormed` and
`TeamInvariants.JoinPreservesWellFormed` prove that identities stay
distinct. `Session.LateCreate` and `Session.LateJoin` keep the behaviour as
written.
