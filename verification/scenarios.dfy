/** Worked examples of the team lifecycle on the seeded store. */
module Scenarios {
  import opened Options
  import opened Tokens
  import opened GuessText
  import opened Tables
  import opened Invariants
  import opened TeamDirectory
  import opened TeamInvariants
  import opened GuessEngine
  import opened Session

  /** Bank positions 0..7, which spell "ABCDEFGH". */
  function SomeDraws(): (d: seq<nat>)
    ensures ValidDraws(d)
  {
    [0, 1, 2, 3, 4, 5, 6, 7]
  }

  /** U1 creates "Alpha": team 1 with an 8-character token free of I, O,
      l, 0 and 1, and U1 as captain. A second create is refused. */
  lemma CreateTwice()
    ensures var (h1, o1) := CreateTeam(Seed(), "U1", "alice", Some("Alpha"), Confirmed, SomeDraws(), 10);
      && o1.Created? && o1.teamId == 1
      && |o1.token| == 8 && (forall i :: 0 <= i < |o1.token| ==> !IsAmbiguous(o1.token[i]))
      && CreateTeam(h1, "U1", "alice", Some("Alpha"), Confirmed, SomeDraws(), 11).1 == AlreadyMember("Alpha", true)
  {
    SeedWellFormed();
    CreateMakesCaptain(Seed(), "U1", "alice", Some("Alpha"), Confirmed, SomeDraws(), 10);
  }

  /** U2 joins with U1's token as a non-captain and leaves again, leaving
      the team intact; U1, the captain, cannot leave. */
  lemma JoinLeaveScenario()
    ensures var (h1, o1) := CreateTeam(Seed(), "U1", "alice", Some("Alpha"), Confirmed, SomeDraws(), 10);
      var (h2, o2) := JoinTeam(h1, "U2", "bob", Some(o1.token));
      var (h3, o3) := LeaveTeam(h2, "U2");
      && o2 == Joined("Alpha")
      && MembershipOf(h2, "U2").Some? && !MembershipOf(h2, "U2").value.solver.isCaptain
      && o3 == Left("Alpha")
      && h3.teams == h1.teams
      && LeaveTeam(h3, "U1").1 == CaptainCannotLeave
  {
    var (h1, o1) := CreateTeam(Seed(), "U1", "alice", Some("Alpha"), Confirmed, SomeDraws(), 10);
    SeedWellFormed();
    CreateMakesCaptain(Seed(), "U1", "alice", Some("Alpha"), Confirmed, SomeDraws(), 10);
    CreatePreservesWellFormed(Seed(), "U1", "alice", Some("Alpha"), Confirmed, SomeDraws(), 10);
    assert h1.teams[0].token == o1.token;
    JoinMakesMember(h1, "U2", "bob", Some(o1.token));
    var h2 := JoinTeam(h1, "U2", "bob", Some(o1.token)).0;
    LookupKeptByAppend(h1.solvers, h1.teams, Solver("U2", "bob", 1, false), "U1");
    LeaveEndsOnlyOwnMembership(h2, "U2", "U1");
  }

  /** The token lookup of `!team join` does not skip deleted teams: after
      U1 deletes "Alpha", U3 can still join it with its token. */
  lemma DeletedTeamTokenStillJoins()
    ensures var (h1, o1) := CreateTeam(Seed(), "U1", "alice", Some("Alpha"), Confirmed, SomeDraws(), 10);
      var (h2, o2) := DeleteTeam(h1, "U1", Confirmed);
      var (h3, o3) := JoinTeam(h2, "U3", "carol", Some(o1.token));
      && o2 == Deleted("Alpha")
      && h2.teams[0].isDeleted
      && o3 == Joined("Alpha")
      && MembershipOf(h3, "U3").Some? && MembershipOf(h3, "U3").value.team.isDeleted
  {
    var (h1, o1) := CreateTeam(Seed(), "U1", "alice", Some("Alpha"), Confirmed, SomeDraws(), 10);
    SeedWellFormed();
    CreateMakesCaptain(Seed(), "U1", "alice", Some("Alpha"), Confirmed, SomeDraws(), 10);
    CreatePreservesWellFormed(Seed(), "U1", "alice", Some("Alpha"), Confirmed, SomeDraws(), 10);
    assert CaptaincyOf(h1, "U1").Some? by {
      assert h1.solvers[0].identity == "U1" && h1.solvers[0].isCaptain;
    }
    var h2 := DeleteTeam(h1, "U1", Confirmed).0;
    DeletePreservesWellFormed(h1, "U1", Confirmed);
    assert h2.teams[0].token == o1.token;
    assert MembershipOf(h2, "U3").None?;
    JoinMakesMember(h2, "U3", "carol", Some(o1.token));
  }

  /** Two `!team create` dialogues of U1 that both pass their membership
      check on the seeded store: the first inserts "Alpha", and the second,
      finishing later with no second check, inserts "Beta". U1 then has two
      solver rows, each as captain. */
  lemma OverlappingCreates()
    ensures var events := [Event(Create("U1", "alice", Some("Alpha"), Confirmed, SomeDraws()), 10),
                           Event(LateCreate("U1", "alice", Some("Beta"), Confirmed, SomeDraws()), 11)];
      && MembershipOf(Seed(), "U1").None?
      && AllAdmissible(SeedPuzzles(), events)
      && Run(Seed(), events).solvers == [Solver("U1", "alice", 1, true), Solver("U1", "alice", 2, true)]
      && !OneSolverPerIdentity(Run(Seed(), events).solvers)
  {
    var events := [Event(Create("U1", "alice", Some("Alpha"), Confirmed, SomeDraws()), 10),
                   Event(LateCreate("U1", "alice", Some("Beta"), Confirmed, SomeDraws()), 11)];
    var h1 := Step(Seed(), events[0]).0;
    assert h1.solvers == [Solver("U1", "alice", 1, true)] && h1.nextTeamId == 2;
    var h2 := Step(h1, events[1]).0;
    assert h2.solvers == [Solver("U1", "alice", 1, true), Solver("U1", "alice", 2, true)];
    assert events[1..] == [events[1]];
    assert Run(h1, events[1..]) == h2;
    assert h2.solvers[0].identity == h2.solvers[1].identity;
  }
}
