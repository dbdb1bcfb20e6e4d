/** The four `!team` subcommands (main.py, `team_create_function`,
    `team_join_function`, `team_leave_function`, `team_delete_function`) as
    pure transitions returning the new store and the outcome reported to the
    user. Waiting for a typed reply becomes an `Option<string>` argument
    (`None` is the 60-second timeout) and the reaction prompt becomes a
    `Confirmation`; nothing is written unless the reaction is the check mark. */
module TeamDirectory {
  import opened Options
  import opened Tokens
  import opened Tables
  import opened Invariants

  /** Longest accepted team name, in code points. */
  const MaxTeamNameLength: nat := 30

  /** The reaction to a confirmation prompt: the check mark, the cross, or
      none within 15 seconds. */
  datatype Confirmation = Confirmed | Declined | NoReaction

  datatype TeamOutcome =
    | Created(teamId: nat, token: string)
    | Joined(teamName: string)
    | Left(teamName: string)
    | Deleted(teamName: string)
    | AlreadyMember(teamName: string, isCaptain: bool)
    | NameTooLong(length: nat)
    | UnknownToken
    | NotAMember
    | CaptainCannotLeave
    | NotACaptain
    | Cancelled
    | TimedOut

  // ---------------------------------------------------------------------
  // Transitions

  /** `!team create`: refuse registered users, then run the naming
      dialogue on the store as it is when the dialogue ends. */
  function CreateTeam(h: Hunt, identity: string, displayName: string, nameReply: Option<string>,
                      confirmation: Confirmation, draws: seq<nat>, now: int): (r: (Hunt, TeamOutcome))
    requires ValidDraws(draws)
    ensures MembershipOf(h, identity).Some? ==>
      r == (h, AlreadyMember(MembershipOf(h, identity).value.team.name, MembershipOf(h, identity).value.solver.isCaptain))
    ensures MembershipOf(h, identity).None? ==>
      r == CreateDialogue(h, identity, displayName, nameReply, confirmation, draws, now)
    ensures r.1.Created? <==>
      && MembershipOf(h, identity).None?
      && nameReply.Some? && |nameReply.value| <= MaxTeamNameLength
      && confirmation == Confirmed
    ensures r.1.NameTooLong? <==>
      MembershipOf(h, identity).None? && nameReply.Some? && |nameReply.value| > MaxTeamNameLength
    ensures r.1.Created? ==>
      && r.1.teamId == h.nextTeamId
      && IsToken(r.1.token)
      && r.0 == h.(teams := h.teams + [FreshTeam(h.nextTeamId, nameReply.value, r.1.token, now)],
                   solvers := h.solvers + [Solver(identity, displayName, h.nextTeamId, true)],
                   nextTeamId := h.nextTeamId + 1)
    ensures !r.1.Created? ==> r.0 == h
  {
    match MembershipOf(h, identity)
    case Some(m) => (h, AlreadyMember(m.team.name, m.solver.isCaptain))
    case None => CreateDialogue(h, identity, displayName, nameReply, confirmation, draws, now)
  }

  /** What `!team create` does after its membership check (main.py:124-180):
      read a name of at most 30 code points and, on confirmation, insert
      the team with a fresh token together with its captain. Nothing here
      looks at the solver table again. */
  function CreateDialogue(h: Hunt, identity: string, displayName: string, nameReply: Option<string>,
                          confirmation: Confirmation, draws: seq<nat>, now: int): (r: (Hunt, TeamOutcome))
    requires ValidDraws(draws)
    ensures r.1.Created? <==> nameReply.Some? && |nameReply.value| <= MaxTeamNameLength && confirmation == Confirmed
    ensures r.1.NameTooLong? <==> nameReply.Some? && |nameReply.value| > MaxTeamNameLength
    ensures r.1.NameTooLong? ==> r.1.length == |nameReply.value|
    ensures r.1.Cancelled? <==>
      nameReply.Some? && |nameReply.value| <= MaxTeamNameLength && confirmation == Declined
    ensures r.1.Created? ==>
      && r.1.teamId == h.nextTeamId
      && IsToken(r.1.token)
      && r.0 == h.(teams := h.teams + [FreshTeam(h.nextTeamId, nameReply.value, r.1.token, now)],
                   solvers := h.solvers + [Solver(identity, displayName, h.nextTeamId, true)],
                   nextTeamId := h.nextTeamId + 1)
    ensures !r.1.Created? ==> r.0 == h
  {
    match nameReply
    case None => (h, TimedOut)
    case Some(name) =>
      if |name| > MaxTeamNameLength then (h, NameTooLong(|name|))
      else
        match confirmation
        case Declined => (h, Cancelled)
        case NoReaction => (h, TimedOut)
        case Confirmed =>
          var token := GenerateToken(draws);
          var id := h.nextTeamId;
          (h.(teams := h.teams + [FreshTeam(id, name, token, now)],
              solvers := h.solvers + [Solver(identity, displayName, id, true)],
              nextTeamId := id + 1),
           Created(id, token))
  }

  /** `!team join`: refuse registered users, then run the token dialogue
      on the store as it is when the dialogue ends. */
  function JoinTeam(h: Hunt, identity: string, displayName: string, tokenReply: Option<string>)
    : (r: (Hunt, TeamOutcome))
    ensures MembershipOf(h, identity).Some? ==>
      r == (h, AlreadyMember(MembershipOf(h, identity).value.team.name, MembershipOf(h, identity).value.solver.isCaptain))
    ensures MembershipOf(h, identity).None? ==> r == JoinDialogue(h, identity, displayName, tokenReply)
    ensures r.1.UnknownToken? <==>
      && MembershipOf(h, identity).None? && tokenReply.Some?
      && forall i :: 0 <= i < |h.teams| ==> h.teams[i].token != tokenReply.value
    ensures r.1.Joined? <==>
      && MembershipOf(h, identity).None? && tokenReply.Some?
      && exists i :: 0 <= i < |h.teams| && h.teams[i].token == tokenReply.value
    ensures r.1.Joined? ==>
      var t := FindTeamByToken(h.teams, tokenReply.value).value;
      && r.1.teamName == t.name
      && r.0 == h.(solvers := h.solvers + [Solver(identity, displayName, t.id, false)])
    ensures !r.1.Joined? ==> r.0 == h
  {
    match MembershipOf(h, identity)
    case Some(m) => (h, AlreadyMember(m.team.name, m.solver.isCaptain))
    case None => JoinDialogue(h, identity, displayName, tokenReply)
  }

  /** What `!team join` does after its membership check (main.py:212-245):
      read a token and add a non-captain solver to the first team holding
      it. The token lookup does not skip deleted teams, and nothing here
      looks at the solver table again. */
  function JoinDialogue(h: Hunt, identity: string, displayName: string, tokenReply: Option<string>)
    : (r: (Hunt, TeamOutcome))
    ensures r.1.TimedOut? <==> tokenReply.None?
    ensures r.1.UnknownToken? <==>
      tokenReply.Some? && forall i :: 0 <= i < |h.teams| ==> h.teams[i].token != tokenReply.value
    ensures r.1.Joined? <==>
      tokenReply.Some? && exists i :: 0 <= i < |h.teams| && h.teams[i].token == tokenReply.value
    ensures r.1.Joined? ==>
      var t := FindTeamByToken(h.teams, tokenReply.value).value;
      && r.1.teamName == t.name
      && r.0 == h.(solvers := h.solvers + [Solver(identity, displayName, t.id, false)])
    ensures !r.1.Joined? ==> r.0 == h
  {
    match tokenReply
    case None => (h, TimedOut)
    case Some(token) =>
      match FindTeamByToken(h.teams, token)
      case None => (h, UnknownToken)
      case Some(t) =>
        (h.(solvers := h.solvers + [Solver(identity, displayName, t.id, false)]), Joined(t.name))
  }

  /** `!team leave`: a non-captain member's solver row is deleted. */
  function LeaveTeam(h: Hunt, identity: string): (r: (Hunt, TeamOutcome))
    ensures r.1 == NotAMember <==> MembershipOf(h, identity).None?
    ensures r.1 == CaptainCannotLeave <==>
      MembershipOf(h, identity).Some? && MembershipOf(h, identity).value.solver.isCaptain
    ensures r.1.Left? <==>
      MembershipOf(h, identity).Some? && !MembershipOf(h, identity).value.solver.isCaptain
    ensures r.1.Left? ==>
      && r.1.teamName == MembershipOf(h, identity).value.team.name
      && r.0 == h.(solvers := RemoveIdentity(h.solvers, identity))
    ensures !r.1.Left? ==> r.0 == h
  {
    match MembershipOf(h, identity)
    case None => (h, NotAMember)
    case Some(m) =>
      if m.solver.isCaptain then (h, CaptainCannotLeave)
      else (h.(solvers := RemoveIdentity(h.solvers, identity)), Left(m.team.name))
  }

  /** `!team delete`: a captain, on confirmation, removes every solver of
      the team and marks the team deleted. The team row and the guess log
      are kept. */
  function DeleteTeam(h: Hunt, identity: string, confirmation: Confirmation): (r: (Hunt, TeamOutcome))
    ensures r.1 == NotACaptain <==> CaptaincyOf(h, identity).None?
    ensures r.1.Deleted? <==> CaptaincyOf(h, identity).Some? && confirmation == Confirmed
    ensures r.1.Deleted? ==>
      var t := CaptaincyOf(h, identity).value.team;
      && r.1.teamName == t.name
      && r.0 == h.(solvers := RemoveTeamSolvers(h.solvers, t.id), teams := MarkDeleted(h.teams, t.id))
    ensures !r.1.Deleted? ==> r.0 == h
  {
    match CaptaincyOf(h, identity)
    case None => (h, NotACaptain)
    case Some(m) =>
      match confirmation
      case Declined => (h, Cancelled)
      case NoReaction => (h, TimedOut)
      case Confirmed =>
        (h.(solvers := RemoveTeamSolvers(h.solvers, m.team.id), teams := MarkDeleted(h.teams, m.team.id)),
         Deleted(m.team.name))
  }

  // ---------------------------------------------------------------------
  // Helper facts about the solver table

  lemma {:induction false} CaptainCountAppend(solvers: seq<Solver>, s: Solver, teamId: nat)
    ensures CaptainCount(solvers + [s], teamId)
         == CaptainCount(solvers, teamId) + (if s.teamId == teamId && s.isCaptain then 1 else 0)
  {
    if |solvers| > 0 {
      assert (solvers + [s])[1..] == solvers[1..] + [s];
      CaptainCountAppend(solvers[1..], s, teamId);
    } else {
      assert solvers + [s] == [s];
    }
  }

  lemma {:induction false} CaptainCountNoRows(solvers: seq<Solver>, teamId: nat)
    requires forall i :: 0 <= i < |solvers| ==> solvers[i].teamId != teamId
    ensures CaptainCount(solvers, teamId) == 0
  {
    if |solvers| > 0 {
      CaptainCountNoRows(solvers[1..], teamId);
    }
  }

  lemma {:induction false} CaptainCountRemoveIdentity(solvers: seq<Solver>, identity: string, teamId: nat)
    requires forall i :: 0 <= i < |solvers| && solvers[i].identity == identity ==> !solvers[i].isCaptain
    ensures CaptainCount(RemoveIdentity(solvers, identity), teamId) == CaptainCount(solvers, teamId)
  {
    if |solvers| > 0 {
      CaptainCountRemoveIdentity(solvers[1..], identity, teamId);
      if solvers[0].identity != identity {
        assert RemoveIdentity(solvers, identity)[1..] == RemoveIdentity(solvers[1..], identity);
      }
    }
  }

  lemma {:induction false} CaptainCountRemoveTeam(solvers: seq<Solver>, removed: nat, teamId: nat)
    ensures CaptainCount(RemoveTeamSolvers(solvers, removed), teamId)
         == if teamId == removed then 0 else CaptainCount(solvers, teamId)
  {
    if |solvers| > 0 {
      CaptainCountRemoveTeam(solvers[1..], removed, teamId);
      if solvers[0].teamId != removed {
        assert RemoveTeamSolvers(solvers, removed)[1..] == RemoveTeamSolvers(solvers[1..], removed);
      }
    }
  }

  lemma {:induction false} RemoveIdentityKeepsDistinct(solvers: seq<Solver>, identity: string)
    requires OneSolverPerIdentity(solvers)
    ensures OneSolverPerIdentity(RemoveIdentity(solvers, identity))
  {
    if |solvers| > 0 {
      var tail := solvers[1..];
      assert OneSolverPerIdentity(tail) by {
        forall i, j | 0 <= i < j < |tail| ensures tail[i].identity != tail[j].identity {
          assert tail[i] == solvers[i + 1] && tail[j] == solvers[j + 1];
        }
      }
      RemoveIdentityKeepsDistinct(tail, identity);
      if solvers[0].identity != identity {
        HeadDistinct(solvers[0], RemoveIdentity(tail, identity), tail);
      }
    }
  }

  lemma {:induction false} RemoveTeamKeepsDistinct(solvers: seq<Solver>, teamId: nat)
    requires OneSolverPerIdentity(solvers)
    ensures OneSolverPerIdentity(RemoveTeamSolvers(solvers, teamId))
  {
    if |solvers| > 0 {
      var tail := solvers[1..];
      assert OneSolverPerIdentity(tail) by {
        forall i, j | 0 <= i < j < |tail| ensures tail[i].identity != tail[j].identity {
          assert tail[i] == solvers[i + 1] && tail[j] == solvers[j + 1];
        }
      }
      RemoveTeamKeepsDistinct(tail, teamId);
      if solvers[0].teamId != teamId {
        HeadDistinct(solvers[0], RemoveTeamSolvers(tail, teamId), tail);
      }
    }
  }

  /** Prepending a row whose identity occurs nowhere in `from` to a
      distinct-identity sub-list of `from` keeps identities distinct. */
  lemma HeadDistinct(head: Solver, rest: seq<Solver>, from: seq<Solver>)
    requires OneSolverPerIdentity(rest)
    requires forall x :: x in rest ==> x in from
    requires forall j :: 0 <= j < |from| ==> from[j].identity != head.identity
    ensures OneSolverPerIdentity([head] + rest)
  {
    var s := [head] + rest;
    forall i, j | 0 <= i < j < |s| ensures s[i].identity != s[j].identity {
      if i == 0 {
        assert s[j] == rest[j - 1];
        assert rest[j - 1] in from;
      } else {
        assert s[i] == rest[i - 1] && s[j] == rest[j - 1];
      }
    }
  }

  /** Appending a team whose id is new does not change earlier lookups. */
  lemma {:induction false} FindTeamAppend(teams: seq<Team>, t: Team, id: nat)
    requires id != t.id
    ensures FindTeam(teams + [t], id) == FindTeam(teams, id)
  {
    if |teams| > 0 {
      assert (teams + [t])[1..] == teams[1..] + [t];
      FindTeamAppend(teams[1..], t, id);
    } else {
      assert teams + [t] == [t];
    }
  }
}
