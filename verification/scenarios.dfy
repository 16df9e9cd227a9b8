/** Concrete sequences of handler calls on the seeded database: the double-vote
    attempt, a tied announcement, results asked for too early, and a vote
    for a removed candidate. */
module Scenarios {
  import opened Entities
  import opened Db
  import opened Persistence
  import opened Tally
  import opened Handlers
  import opened Properties

  /** The seeded admin logs in (the user name in any case), opens the
      election and verifies voter1; voter1 votes for Bob, then tries again
      and is refused with the tally unchanged. */
  lemma DoubleVoteScenario()
    ensures var admin := OnAdminLogin(NoSession, "ADMIN", "admin");
      var early := OnVoterLogin(Seeded, NoSession, "voter1");
      var started := OnStartElection(Seeded, admin.next);
      var verified := OnVerify(started.next, admin.next, Some("voter1"));
      var login := OnVoterLogin(verified.next, NoSession, "voter1");
      var first := OnCastVote(verified.next, login.next, Some(2));
      var second := OnCastVote(first.next, login.next, Some(2));
      && admin.outcome == Done
      && early.outcome == Failed(NotVerified)
      && started.outcome == Done
      && login.outcome == Done
      && first.outcome == Done
      && first.next.candidates[1].votes == 0
      && first.next.candidates[2].votes == 1
      && second == Step(Failed(AlreadyVoted), first.next)
  {
    InitEmpty();
    var admin := OnAdminLogin(NoSession, "ADMIN", "admin");
    assert EqualsIgnoreCase("ADMIN", AdminName) by {
      assert forall i :: 0 <= i < 5 ==> FoldCase("ADMIN"[i]) == AdminName[i];
    }
    var started := OnStartElection(Seeded, admin.next);
    ParseBoolText(true);
    assert IsElectionActive(started.next);
    var verified := OnVerify(started.next, admin.next, Some("voter1"));
    assert verified.next.users["voter1"] == User("voter1", "Voter One", Voter, true);
    var login := OnVoterLogin(verified.next, NoSession, "voter1");
    var first := OnCastVote(verified.next, login.next, Some(2));
    SecondVoteRefused(verified.next, login.next, Some(2), Some(2));
  }

  /** Alice and Bob both at three votes. */
  const TiedStore := Seeded.(candidates := map[
    1 := Candidate(1, "Alice", "Transparency and Innovation", 3),
    2 := Candidate(2, "Bob", "Community and Growth", 3)],
    settings := map[ElectionKey := "true"])

  /** The same tally after the election has ended. */
  const TiedClosed := TiedStore.(settings := map[ElectionKey := "false"])

  /** Ending the election with Alice and Bob at three votes each announces a
      tie between them, in id order, at three votes. */
  lemma TieScenario(admin: Session)
    requires RequireAdmin(admin)
    ensures var ended := OnEndElection(TiedStore, admin);
      && ended.outcome == Done
      && AnnounceResults(ended.next) == Ok(Tie(["Alice", "Bob"], 3))
  {
    EndTied(admin);
    TiedClosedAnnounce();
  }

  /** Ending the tied election only flips the flag. */
  lemma EndTied(admin: Session)
    requires RequireAdmin(admin)
    ensures OnEndElection(TiedStore, admin) == Step(Done, TiedClosed)
  {
    ParseBoolText(true);
    assert IsElectionActive(TiedStore);
    assert BoolText(false) == "false";
    assert TiedStore.settings[ElectionKey := "false"] == map[ElectionKey := "false"];
  }

  /** The closed tied store announces the tie. */
  lemma TiedClosedAnnounce()
    ensures AnnounceResults(TiedClosed) == Ok(Tie(["Alice", "Bob"], 3))
  {
    var alice := Candidate(1, "Alice", "Transparency and Innovation", 3);
    var bob := Candidate(2, "Bob", "Community and Growth", 3);
    TiedClosedLoads(alice, bob);
    TiedClosedInactive();
    AnnounceEvenPair(TiedClosed, alice, bob);
  }

  lemma TiedClosedLoads(alice: Candidate, bob: Candidate)
    requires alice == Candidate(1, "Alice", "Transparency and Innovation", 3)
    requires bob == Candidate(2, "Bob", "Community and Growth", 3)
    ensures LoadCandidates(TiedClosed) == [alice, bob]
  {
    LoadTwo(TiedClosed, alice, bob);
  }

  lemma TiedClosedInactive()
    ensures !IsElectionActive(TiedClosed)
  {
    ParseBoolText(false);
  }

  /** A closed store holding exactly two rows with equal tallies announces
      a tie between them, in their loaded order. */
  lemma AnnounceEvenPair(s: Store, a: Candidate, b: Candidate)
    requires !IsElectionActive(s) && LoadCandidates(s) == [a, b] && a.votes == b.votes
    ensures AnnounceResults(s) == Ok(Tie([a.name, b.name], a.votes))
  {
    var r := AnnounceResults(s);
    EvenPair(a, b);
    assert Names([a, b]) == [a.name, b.name];
    assert r.Ok? && r.value.votes == a.votes;
    assert WinnerNames(r.value) == [a.name, b.name];
    assert r.value.Tie?;
  }

  /** A table with rows at ids 1 and 2 only loads as those two rows. */
  lemma LoadTwo(s: Store, a: Candidate, b: Candidate)
    requires s.lastId == 2 && s.candidates == map[1 := a, 2 := b]
    ensures LoadCandidates(s) == [a, b]
  {
    IdsStep(s.candidates, 2, 3, []);
    IdsStep(s.candidates, 1, 3, [2]);
    assert IdsFrom(s.candidates, 0, 3) == IdsFrom(s.candidates, 1, 3);
    var ids := [1, 2];
    assert LoadCandidates(s) == seq(|ids|, i requires 0 <= i < |ids| => s.candidates[ids[i]]);
  }

  /** One unfolding of the id scan at a present key. */
  lemma IdsStep(candidates: map<nat, Candidate>, lo: nat, hi: nat, rest: seq<nat>)
    requires lo < hi && lo in candidates && IdsFrom(candidates, lo + 1, hi) == rest
    ensures IdsFrom(candidates, lo, hi) == [lo] + rest
  {
  }

  /** Two rows with equal tallies: both are at the maximum. */
  lemma EvenPair(a: Candidate, b: Candidate)
    requires a.votes == b.votes
    ensures MaxVotes([a, b]) == a.votes
    ensures Tied([a, b], a.votes) == [a, b]
  {
    assert [a, b][1..] == [b];
    assert [b][1..] == [];
    assert MaxVotes([b]) == b.votes;
    assert Tied([b], a.votes) == [b];
  }

  /** Results are refused while the election runs, and the store is only read. */
  lemma EarlyResultsScenario()
    ensures AnnounceResults(TiedStore) == Err(ElectionStillActive)
  {
    ParseBoolText(true);
  }

  /** A vote lands on Bob; the admin then removes Bob. A later vote for
      Bob's id is rolled back as an unknown candidate, and Bob is gone from
      the loaded list. */
  lemma RemovedCandidateScenario(admin: Session, voter: Session, other: Session)
    requires RequireAdmin(admin) && voter.voter.Some? && other.voter.Some?
    requires voter.voter.value.username != other.voter.value.username
    ensures var s0 := Seeded.(settings := map[ElectionKey := "true"]);
      var v1 := OnCastVote(s0, voter, Some(2));
      var removed := OnRemoveCandidate(v1.next, admin, Some(2));
      var v2 := OnCastVote(removed.next, other, Some(2));
      && v1.outcome == Done
      && v1.next.candidates[2].votes == 1
      && removed.outcome == Done
      && v2 == Step(Failed(CandidateNotFound), removed.next)
      && LoadCandidates(removed.next) == [Seeded.candidates[1]]
  {
    ParseBoolText(true);
    var s0 := Seeded.(settings := map[ElectionKey := "true"]);
    var v1 := OnCastVote(s0, voter, Some(2));
    var removed := OnRemoveCandidate(v1.next, admin, Some(2));
    assert removed.next.candidates == map[1 := Seeded.candidates[1]];
    assert IdsFrom(removed.next.candidates, 0, 3) == [1];
  }
}
