/** Each `!team` transition keeps the store consistent, in particular one
    solver row per identity and one captain per live team; no team command
    changes an existing quota, so it also keeps a well-formed store well
    formed. */
module TeamInvariants {
  import opened Options
  import opened Tokens
  import opened Tables
  import opened Invariants
  import opened TeamDirectory

  /** Every team id a solver or log row mentions was issued already. */
  lemma ReferencedIdsIssued(h: Hunt, id: nat)
    requires TeamIdsIssued(h)
    requires FindTeam(h.teams, id).Some?
    ensures id < h.nextTeamId
  {
    var k :| 0 <= k < |h.teams| && h.teams[k] == FindTeam(h.teams, id).value;
  }

  lemma CreatePreservesWellFormed(h: Hunt, identity: string, displayName: string, nameReply: Option<string>,
                                  confirmation: Confirmation, draws: seq<nat>, now: int)
    requires Consistent(h) && ValidDraws(draws)
    ensures Consistent(CreateTeam(h, identity, displayName, nameReply, confirmation, draws, now).0)
    ensures WellFormed(h) ==> WellFormed(CreateTeam(h, identity, displayName, nameReply, confirmation, draws, now).0)
  {
    var r := CreateTeam(h, identity, displayName, nameReply, confirmation, draws, now);
    if r.1.Created? {
      var t := FreshTeam(h.nextTeamId, nameReply.value, r.1.token, now);
      var c := Solver(identity, displayName, h.nextTeamId, true);
      assert r.0 == h.(teams := h.teams + [t], solvers := h.solvers + [c], nextTeamId := h.nextTeamId + 1);
      NoMembershipNoRow(h, identity);
      InsertTeamPreservesWellFormed(h, t, c);
    }
  }

  /** Inserting a fresh team together with its captain, whose identity has
      no solver row yet, keeps the store consistent (and well formed). */
  lemma InsertTeamPreservesWellFormed(h: Hunt, t: Team, c: Solver)
    requires Consistent(h)
    requires t == FreshTeam(h.nextTeamId, t.name, t.token, t.lastSolveTime)
    requires c.teamId == t.id && c.isCaptain
    requires forall i :: 0 <= i < |h.solvers| ==> h.solvers[i].identity != c.identity
    ensures Consistent(h.(teams := h.teams + [t], solvers := h.solvers + [c], nextTeamId := h.nextTeamId + 1))
    ensures WellFormed(h) ==>
      WellFormed(h.(teams := h.teams + [t], solvers := h.solvers + [c], nextTeamId := h.nextTeamId + 1))
  {
    var h' := h.(teams := h.teams + [t], solvers := h.solvers + [c], nextTeamId := h.nextTeamId + 1);
    assert h'.log == h.log;
    InsertTeamKeepsReferences(h, t, c);
    InsertTeamKeepsCaptains(h, t, c);
    InsertTeamKeepsLedger(h, t, c);
    assert TeamIdsDistinct(h'.teams) by {
      forall i, j | 0 <= i < j < |h'.teams| ensures h'.teams[i].id != h'.teams[j].id {
        if j == |h.teams| {
          assert h'.teams[i] == h.teams[i];
        }
      }
    }
  }

  lemma InsertTeamKeepsReferences(h: Hunt, t: Team, c: Solver)
    requires TeamIdsIssued(h) && SolversOnTeams(h) && LogOnTeams(h)
    requires t.id == h.nextTeamId && c.teamId == t.id
    ensures var h' := h.(teams := h.teams + [t], solvers := h.solvers + [c], nextTeamId := h.nextTeamId + 1);
      && TeamIdsIssued(h') && SolversOnTeams(h') && LogOnTeams(h')
      && (forall i :: 0 <= i < |h.solvers| ==> h.solvers[i].teamId != t.id)
      && (forall i :: 0 <= i < |h.log| ==> h.log[i].teamId != t.id)
  {
    var h' := h.(teams := h.teams + [t], solvers := h.solvers + [c], nextTeamId := h.nextTeamId + 1);
    assert FindTeam(h'.teams, t.id).Some? by {
      assert h'.teams[|h.teams|] == t;
    }
    forall i | 0 <= i < |h.solvers|
      ensures h.solvers[i].teamId != t.id
      ensures FindTeam(h'.teams, h.solvers[i].teamId).Some?
    {
      ReferencedIdsIssued(h, h.solvers[i].teamId);
      FindTeamAppend(h.teams, t, h.solvers[i].teamId);
    }
    forall i | 0 <= i < |h.log|
      ensures h.log[i].teamId != t.id
      ensures FindTeam(h'.teams, h.log[i].teamId).Some?
    {
      ReferencedIdsIssued(h, h.log[i].teamId);
      FindTeamAppend(h.teams, t, h.log[i].teamId);
    }
    assert SolversOnTeams(h') by {
      forall i | 0 <= i < |h'.solvers| ensures FindTeam(h'.teams, h'.solvers[i].teamId).Some? {
        if i < |h.solvers| {
          assert h'.solvers[i] == h.solvers[i];
        }
      }
    }
  }

  lemma InsertTeamKeepsCaptains(h: Hunt, t: Team, c: Solver)
    requires OneCaptainPerLiveTeam(h) && OneSolverPerIdentity(h.solvers)
    requires !t.isDeleted && c.teamId == t.id && c.isCaptain
    requires forall i :: 0 <= i < |h.teams| ==> h.teams[i].id != t.id
    requires forall i :: 0 <= i < |h.solvers| ==> h.solvers[i].teamId != t.id
    requires forall i :: 0 <= i < |h.solvers| ==> h.solvers[i].identity != c.identity
    ensures var h' := h.(teams := h.teams + [t], solvers := h.solvers + [c], nextTeamId := h.nextTeamId + 1);
      OneCaptainPerLiveTeam(h') && OneSolverPerIdentity(h'.solvers)
  {
    var h' := h.(teams := h.teams + [t], solvers := h.solvers + [c], nextTeamId := h.nextTeamId + 1);
    forall i | 0 <= i < |h'.teams|
      ensures CaptainCount(h'.solvers, h'.teams[i].id) == if h'.teams[i].isDeleted then 0 else 1
    {
      CaptainCountAppend(h.solvers, c, h'.teams[i].id);
      if i == |h.teams| {
        CaptainCountNoRows(h.solvers, t.id);
      } else {
        assert h'.teams[i] == h.teams[i];
      }
    }
  }

  lemma InsertTeamKeepsLedger(h: Hunt, t: Team, c: Solver)
    requires ScoresMatchLog(h) && QuotasMatchLog(h) && HuntFlagsMatchLog(h)
    requires t == FreshTeam(t.id, t.name, t.token, t.lastSolveTime)
    requires forall i :: 0 <= i < |h.log| ==> h.log[i].teamId != t.id
    ensures var h' := h.(teams := h.teams + [t], solvers := h.solvers + [c], nextTeamId := h.nextTeamId + 1);
      && ScoresMatchLog(h') && QuotasMatchLog(h') && HuntFlagsMatchLog(h')
      && (QuotasNonNegative(h) ==> QuotasNonNegative(h'))
  {
    var h' := h.(teams := h.teams + [t], solvers := h.solvers + [c], nextTeamId := h.nextTeamId + 1);
    SolvedPointsNoRows(h.puzzles, h.log, t.id);
    forall i | 0 <= i < |h'.teams|
      ensures h'.teams[i].score == SolvedPoints(h'.puzzles, h'.log, h'.teams[i].id)
      ensures h'.teams[i].numGuesses == InitialGuesses - Count(h'.log, IncorrectBy(h'.teams[i].id))
      ensures h'.teams[i].isHuntSolved <==> FinalSolved(h'.puzzles, h'.log, h'.teams[i].id)
      ensures h'.teams[i].huntSolveTime.Some? <==> h'.teams[i].isHuntSolved
      ensures QuotasNonNegative(h) ==> h'.teams[i].numGuesses >= 0
    {
      if i < |h.teams| {
        assert h'.teams[i] == h.teams[i];
      }
    }
  }

  lemma JoinPreservesWellFormed(h: Hunt, identity: string, displayName: string, tokenReply: Option<string>)
    requires Consistent(h)
    ensures Consistent(JoinTeam(h, identity, displayName, tokenReply).0)
    ensures WellFormed(h) ==> WellFormed(JoinTeam(h, identity, displayName, tokenReply).0)
  {
    var r := JoinTeam(h, identity, displayName, tokenReply);
    if r.1.Joined? {
      var t := FindTeamByToken(h.teams, tokenReply.value).value;
      NoMembershipNoRow(h, identity);
      AddMemberPreservesWellFormed(h, Solver(identity, displayName, t.id, false));
    }
  }

  /** Appending a non-captain row for an identity without one, on a team in
      the table, keeps the store consistent (and well formed). */
  lemma AddMemberPreservesWellFormed(h: Hunt, s: Solver)
    requires Consistent(h)
    requires FindTeam(h.teams, s.teamId).Some? && !s.isCaptain
    requires forall i :: 0 <= i < |h.solvers| ==> h.solvers[i].identity != s.identity
    ensures Consistent(h.(solvers := h.solvers + [s]))
    ensures WellFormed(h) ==> WellFormed(h.(solvers := h.solvers + [s]))
  {
    var h' := h.(solvers := h.solvers + [s]);
    AddMemberKeepsReferences(h, s);
    assert OneCaptainPerLiveTeam(h') by {
      forall i | 0 <= i < |h'.teams| {
        CaptainCountAppend(h.solvers, s, h'.teams[i].id);
      }
    }
  }

  lemma AddMemberKeepsReferences(h: Hunt, s: Solver)
    requires SolversOnTeams(h) && OneSolverPerIdentity(h.solvers)
    requires FindTeam(h.teams, s.teamId).Some?
    requires forall i :: 0 <= i < |h.solvers| ==> h.solvers[i].identity != s.identity
    ensures SolversOnTeams(h.(solvers := h.solvers + [s]))
    ensures OneSolverPerIdentity(h.solvers + [s])
  {
    var h' := h.(solvers := h.solvers + [s]);
    forall i | 0 <= i < |h'.solvers| ensures FindTeam(h'.teams, h'.solvers[i].teamId).Some? {
      if i < |h.solvers| {
        assert h'.solvers[i] == h.solvers[i];
      }
    }
    forall i, j | 0 <= i < j < |h'.solvers| ensures h'.solvers[i].identity != h'.solvers[j].identity {
      assert h'.solvers[i] == h.solvers[i];
    }
  }

  lemma LeavePreservesWellFormed(h: Hunt, identity: string)
    requires Consistent(h)
    ensures Consistent(LeaveTeam(h, identity).0)
    ensures WellFormed(h) ==> WellFormed(LeaveTeam(h, identity).0)
  {
    var r := LeaveTeam(h, identity);
    if r.1.Left? {
      forall i | 0 <= i < |h.solvers| && h.solvers[i].identity == identity ensures !h.solvers[i].isCaptain {
        MembershipIsSolverRow(h, identity, i);
      }
      RemoveMemberPreservesWellFormed(h, identity);
    }
  }

  /** Removing the rows of an identity that captains no team keeps the
      store consistent (and well formed). */
  lemma RemoveMemberPreservesWellFormed(h: Hunt, identity: string)
    requires Consistent(h)
    requires forall i :: 0 <= i < |h.solvers| && h.solvers[i].identity == identity ==> !h.solvers[i].isCaptain
    ensures Consistent(h.(solvers := RemoveIdentity(h.solvers, identity)))
    ensures WellFormed(h) ==> WellFormed(h.(solvers := RemoveIdentity(h.solvers, identity)))
  {
    var h' := h.(solvers := RemoveIdentity(h.solvers, identity));
    RemoveIdentityKeepsDistinct(h.solvers, identity);
    assert SolversOnTeams(h') by {
      forall i | 0 <= i < |h'.solvers| ensures FindTeam(h'.teams, h'.solvers[i].teamId).Some? {
        assert h'.solvers[i] in h'.solvers;
      }
    }
    assert OneCaptainPerLiveTeam(h') by {
      forall i | 0 <= i < |h'.teams| {
        CaptainCountRemoveIdentity(h.solvers, identity, h'.teams[i].id);
      }
    }
  }


  lemma DeletePreservesWellFormed(h: Hunt, identity: string, confirmation: Confirmation)
    requires Consistent(h)
    ensures Consistent(DeleteTeam(h, identity, confirmation).0)
    ensures WellFormed(h) ==> WellFormed(DeleteTeam(h, identity, confirmation).0)
  {
    var r := DeleteTeam(h, identity, confirmation);
    if r.1.Deleted? {
      var t := CaptaincyOf(h, identity).value.team;
      RemoveTeamKeepsDistinct(h.solvers, t.id);
      DeleteKeepsReferences(h, t.id);
      DeleteKeepsCaptains(h, t.id);
      DeleteKeepsLedger(h, t.id);
    }
  }

  lemma DeleteKeepsReferences(h: Hunt, id: nat)
    requires TeamIdsDistinct(h.teams) && TeamIdsIssued(h) && SolversOnTeams(h) && LogOnTeams(h)
    ensures var h' := h.(solvers := RemoveTeamSolvers(h.solvers, id), teams := MarkDeleted(h.teams, id));
      TeamIdsDistinct(h'.teams) && TeamIdsIssued(h') && SolversOnTeams(h') && LogOnTeams(h')
  {
    var h' := h.(solvers := RemoveTeamSolvers(h.solvers, id), teams := MarkDeleted(h.teams, id));
    assert forall i :: 0 <= i < |h.teams| ==> h'.teams[i].id == h.teams[i].id;
    forall x: nat | FindTeam(h.teams, x).Some? ensures FindTeam(h'.teams, x).Some? {
      var k :| 0 <= k < |h.teams| && h.teams[k].id == x;
      assert h'.teams[k].id == x;
    }
    assert SolversOnTeams(h') by {
      forall i | 0 <= i < |h'.solvers| ensures FindTeam(h'.teams, h'.solvers[i].teamId).Some? {
        assert h'.solvers[i] in h'.solvers;
      }
    }
  }

  lemma DeleteKeepsCaptains(h: Hunt, id: nat)
    requires OneCaptainPerLiveTeam(h)
    ensures var h' := h.(solvers := RemoveTeamSolvers(h.solvers, id), teams := MarkDeleted(h.teams, id));
      OneCaptainPerLiveTeam(h')
  {
    var h' := h.(solvers := RemoveTeamSolvers(h.solvers, id), teams := MarkDeleted(h.teams, id));
    forall i | 0 <= i < |h'.teams|
      ensures CaptainCount(h'.solvers, h'.teams[i].id) == if h'.teams[i].isDeleted then 0 else 1
    {
      CaptainCountRemoveTeam(h.solvers, id, h'.teams[i].id);
    }
  }

  lemma DeleteKeepsLedger(h: Hunt, id: nat)
    requires ScoresMatchLog(h) && QuotasMatchLog(h) && HuntFlagsMatchLog(h)
    ensures var h' := h.(solvers := RemoveTeamSolvers(h.solvers, id), teams := MarkDeleted(h.teams, id));
      && ScoresMatchLog(h') && QuotasMatchLog(h') && HuntFlagsMatchLog(h')
      && (QuotasNonNegative(h) ==> QuotasNonNegative(h'))
  {
  }

  // ---------------------------------------------------------------------
  // What each transition does to memberships

  /** A solver row appended for an identity with no earlier row, on a team
      the lookup finds, is that identity's membership. */
  lemma {:induction false} LookupAppended(solvers: seq<Solver>, teams: seq<Team>, s: Solver, t: Team)
    requires forall i :: 0 <= i < |solvers| ==> solvers[i].identity != s.identity
    requires FindTeam(teams, s.teamId) == Some(t)
    ensures LookupMember(solvers + [s], teams, s.identity, false) == Some(Membership(s, t))
  {
    if |solvers| > 0 {
      assert (solvers + [s])[1..] == solvers[1..] + [s];
      LookupAppended(solvers[1..], teams, s, t);
    } else {
      assert solvers + [s] == [s];
    }
  }

  /** After a successful create, the creator is the captain of the new team. */
  lemma CreateMakesCaptain(h: Hunt, identity: string, displayName: string, nameReply: Option<string>,
                           confirmation: Confirmation, draws: seq<nat>, now: int)
    requires Consistent(h) && ValidDraws(draws)
    requires CreateTeam(h, identity, displayName, nameReply, confirmation, draws, now).1.Created?
    ensures var r := CreateTeam(h, identity, displayName, nameReply, confirmation, draws, now);
      MembershipOf(r.0, identity)
        == Some(Membership(Solver(identity, displayName, h.nextTeamId, true),
                           FreshTeam(h.nextTeamId, nameReply.value, r.1.token, now)))
  {
    var r := CreateTeam(h, identity, displayName, nameReply, confirmation, draws, now);
    var t := FreshTeam(h.nextTeamId, nameReply.value, r.1.token, now);
    NoMembershipNoRow(h, identity);
    InsertTeamPreservesWellFormed(h, t, Solver(identity, displayName, h.nextTeamId, true));
    FindTeamUnique(r.0.teams, t.id, |h.teams|);
    LookupAppended(h.solvers, r.0.teams, Solver(identity, displayName, h.nextTeamId, true), t);
  }

  /** After a successful join, the joiner is a non-captain member of the
      team whose token they gave. */
  lemma JoinMakesMember(h: Hunt, identity: string, displayName: string, tokenReply: Option<string>)
    requires Consistent(h)
    requires JoinTeam(h, identity, displayName, tokenReply).1.Joined?
    ensures var t := FindTeamByToken(h.teams, tokenReply.value).value;
      MembershipOf(JoinTeam(h, identity, displayName, tokenReply).0, identity)
        == Some(Membership(Solver(identity, displayName, t.id, false), t))
  {
    var t := FindTeamByToken(h.teams, tokenReply.value).value;
    NoMembershipNoRow(h, identity);
    var k :| 0 <= k < |h.teams| && h.teams[k] == t;
    FindTeamUnique(h.teams, t.id, k);
    LookupAppended(h.solvers, h.teams, Solver(identity, displayName, t.id, false), t);
  }

  /** Removing one identity's rows leaves every other identity's lookup
      as it was. */
  lemma {:induction false} LookupAfterRemoveIdentity(solvers: seq<Solver>, teams: seq<Team>, removed: string, other: string)
    requires other != removed
    ensures LookupMember(RemoveIdentity(solvers, removed), teams, other, false)
         == LookupMember(solvers, teams, other, false)
  {
    if |solvers| > 0 {
      LookupAfterRemoveIdentity(solvers[1..], teams, removed, other);
      if solvers[0].identity != removed {
        assert RemoveIdentity(solvers, removed)[1..] == RemoveIdentity(solvers[1..], removed);
      }
    }
  }

  /** Leaving ends the leaver's membership and no one else's. */
  lemma LeaveEndsOnlyOwnMembership(h: Hunt, identity: string, other: string)
    requires LeaveTeam(h, identity).1.Left?
    ensures MembershipOf(LeaveTeam(h, identity).0, identity).None?
    ensures other != identity ==>
      MembershipOf(LeaveTeam(h, identity).0, other) == MembershipOf(h, other)
  {
    if other != identity {
      LookupAfterRemoveIdentity(h.solvers, h.teams, identity, other);
    }
  }

  /** Deleting a team ends the membership of every one of its members,
      keeps the team row (now marked deleted) and keeps the guess log. */
  lemma DeleteEndsTeamMemberships(h: Hunt, identity: string, member: string)
    requires Consistent(h)
    requires DeleteTeam(h, identity, Confirmed).1.Deleted?
    requires MembershipOf(h, member).Some?
    requires MembershipOf(h, member).value.team.id == CaptaincyOf(h, identity).value.team.id
    ensures MembershipOf(DeleteTeam(h, identity, Confirmed).0, member).None?
    ensures var t := CaptaincyOf(h, identity).value.team;
      t.(isDeleted := true) in DeleteTeam(h, identity, Confirmed).0.teams
    ensures DeleteTeam(h, identity, Confirmed).0.log == h.log
  {
    var t := CaptaincyOf(h, identity).value.team;
    var m := MembershipOf(h, member).value;
    var j :| 0 <= j < |h.solvers| && h.solvers[j] == m.solver;
    RemoveTeamDropsIdentity(h.solvers, t.id, member, j);
    var k :| 0 <= k < |h.teams| && h.teams[k] == t;
    MarkDeletedKeepsRow(h.teams, k);
  }

  /** Removing a team's solver rows removes every row of an identity that
      has its (only) row on that team. */
  lemma RemoveTeamDropsIdentity(solvers: seq<Solver>, teamId: nat, member: string, j: nat)
    requires OneSolverPerIdentity(solvers)
    requires j < |solvers| && solvers[j].identity == member && solvers[j].teamId == teamId
    ensures forall i :: 0 <= i < |RemoveTeamSolvers(solvers, teamId)| ==>
      RemoveTeamSolvers(solvers, teamId)[i].identity != member
  {
    var r := RemoveTeamSolvers(solvers, teamId);
    forall i | 0 <= i < |r| ensures r[i].identity != member {
      assert r[i] in r;
      var i0 :| 0 <= i0 < |solvers| && solvers[i0] == r[i];
    }
  }

  lemma MarkDeletedKeepsRow(teams: seq<Team>, k: nat)
    requires k < |teams|
    ensures teams[k].(isDeleted := true) in MarkDeleted(teams, teams[k].id)
  {
    assert MarkDeleted(teams, teams[k].id)[k] == teams[k].(isDeleted := true);
  }


  /** Appending a solver row does not change a lookup that already
      succeeds. */
  lemma {:induction false} LookupKeptByAppend(solvers: seq<Solver>, teams: seq<Team>, s: Solver, identity: string)
    requires LookupMember(solvers, teams, identity, false).Some?
    ensures LookupMember(solvers + [s], teams, identity, false) == LookupMember(solvers, teams, identity, false)
  {
    assert (solvers + [s])[1..] == solvers[1..] + [s];
    if !(solvers[0].identity == identity && FindTeam(teams, solvers[0].teamId).Some?) {
      LookupKeptByAppend(solvers[1..], teams, s, identity);
    }
  }

  // ---------------------------------------------------------------------
  // Dialogues that outlive their membership check

  /** Appending a solver row keeps identities distinct exactly when its
      identity has no row yet. */
  lemma AppendKeepsDistinctIff(solvers: seq<Solver>, s: Solver)
    requires OneSolverPerIdentity(solvers)
    ensures OneSolverPerIdentity(solvers + [s]) <==> forall i :: 0 <= i < |solvers| ==> solvers[i].identity != s.identity
  {
    var all := solvers + [s];
    if exists i :: 0 <= i < |solvers| && solvers[i].identity == s.identity {
      var i :| 0 <= i < |solvers| && solvers[i].identity == s.identity;
      assert all[i] == solvers[i] && all[|solvers|] == s;
    } else {
      forall i, j | 0 <= i < j < |all| ensures all[i].identity != all[j].identity {
        assert all[i] == solvers[i];
        if j < |solvers| {
          assert all[j] == solvers[j];
        }
      }
    }
  }

  /** The create dialogue (main.py:124-180) inserts its captain row without
      looking at the solver table again. On a consistent store, a confirmed
      dialogue keeps one solver row per identity exactly when the user had
      no membership; `CreateTeam` checks that first, but a dialogue that
      outlives a membership gained meanwhile does not. */
  lemma CreateDialogueKeepsIdentitiesIff(h: Hunt, identity: string, displayName: string, nameReply: Option<string>,
                                         confirmation: Confirmation, draws: seq<nat>, now: int)
    requires Consistent(h) && ValidDraws(draws)
    requires CreateDialogue(h, identity, displayName, nameReply, confirmation, draws, now).1.Created?
    ensures OneSolverPerIdentity(CreateDialogue(h, identity, displayName, nameReply, confirmation, draws, now).0.solvers)
        <==> MembershipOf(h, identity).None?
  {
    var c := Solver(identity, displayName, h.nextTeamId, true);
    AppendKeepsDistinctIff(h.solvers, c);
    if MembershipOf(h, identity).None? {
      NoMembershipNoRow(h, identity);
    } else {
      var m := MembershipOf(h, identity).value;
      var k :| 0 <= k < |h.solvers| && h.solvers[k] == m.solver;
    }
  }

  /** The join dialogue (main.py:212-245) likewise adds its row without
      looking at the solver table again: on a consistent store, a join that
      finds its team keeps one solver row per identity exactly when the
      user had no membership. */
  lemma JoinDialogueKeepsIdentitiesIff(h: Hunt, identity: string, displayName: string, tokenReply: Option<string>)
    requires Consistent(h)
    requires JoinDialogue(h, identity, displayName, tokenReply).1.Joined?
    ensures OneSolverPerIdentity(JoinDialogue(h, identity, displayName, tokenReply).0.solvers)
        <==> MembershipOf(h, identity).None?
  {
    var t := FindTeamByToken(h.teams, tokenReply.value).value;
    AppendKeepsDistinctIff(h.solvers, Solver(identity, displayName, t.id, false));
    if MembershipOf(h, identity).None? {
      NoMembershipNoRow(h, identity);
    } else {
      var m := MembershipOf(h, identity).value;
      var k :| 0 <= k < |h.solvers| && h.solvers[k] == m.solver;
    }
  }

  /** A join dialogue that outlives its check leaves an existing member
      where they were: lookups still find their first row. */
  lemma StaleJoinKeepsOldTeam(h: Hunt, identity: string, displayName: string, tokenReply: Option<string>)
    requires MembershipOf(h, identity).Some?
    ensures MembershipOf(JoinDialogue(h, identity, displayName, tokenReply).0, identity) == MembershipOf(h, identity)
  {
    if JoinDialogue(h, identity, displayName, tokenReply).1.Joined? {
      var t := FindTeamByToken(h.teams, tokenReply.value).value;
      LookupKeptByAppend(h.solvers, h.teams, Solver(identity, displayName, t.id, false), identity);
    }
  }
}
