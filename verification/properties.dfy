/** Properties that relate several operations: the seeded state and the
    idempotence of `init`, the store invariants every handler keeps, the
    tally consistency of vote casting over any sequence of votes, and the
    inverse and idempotence pairs of the admin operations. */
module Properties {
  import opened Entities
  import opened Db
  import opened Persistence
  import opened Tally
  import opened Handlers

  // ---------------------------------------------------------------------------
  // Db.init

  /** `init` on an empty database yields exactly the seeded rows. */
  lemma InitEmpty()
    ensures Init(Empty) == Seeded
    ensures Valid(Seeded) && !IsElectionActive(Seeded)
  {
    var s1 := InsertCandidateOrIgnore(Empty, "Alice", "Transparency and Innovation");
    assert !NameTaken(Empty.candidates, "Alice", -1);
    assert s1.candidates == map[1 := Candidate(1, "Alice", "Transparency and Innovation", 0)];
    assert !NameTaken(s1.candidates, "Bob", -1) by {
      assert s1.candidates[1].name != "Bob";
    }
    var s2 := InsertCandidateOrIgnore(s1, "Bob", "Community and Growth");
    assert s2 == SeedCandidates(Empty);
    assert s2.candidates == Seeded.candidates;
    assert Seeded.settings[ElectionKey] == "false";
    assert UniqueNames(Seeded.candidates) by {
      assert Seeded.candidates[1].name != Seeded.candidates[2].name;
    }
  }

  /** A second `init` finds every seed key taken and changes nothing. */
  lemma InitIdempotent(s: Store)
    requires SequenceCovers(s)
    ensures Init(Init(s)) == Init(s)
  {
    var r := Init(s);
    var c1 := InsertCandidateOrIgnore(r, "Alice", "Transparency and Innovation");
    assert c1 == r;
    assert InsertCandidateOrIgnore(c1, "Bob", "Community and Growth") == r;
    assert SeedCandidates(r) == r;
    assert SeedUsers(r) == r;
  }

  /** `init` keeps every existing row as it is (votes, verification, the
      election flag and the voted set included) and yields a valid store
      from a valid one. */
  lemma InitKeepsRows(s: Store)
    requires Valid(s)
    ensures var r := Init(s);
      && Valid(r)
      && r.voted == s.voted
      && KeepsCandidates(s, r)
      && (forall u :: u in s.users ==> r.users[u] == s.users[u])
      && r.settings == s.settings
      && IsElectionActive(r) == IsElectionActive(s)
  {
    var s1 := InsertCandidateOrIgnore(s, "Alice", "Transparency and Innovation");
    InsertCandidateKeepsValid(s, "Alice", "Transparency and Innovation");
    var s2 := InsertCandidateOrIgnore(s1, "Bob", "Community and Growth");
    InsertCandidateKeepsValid(s1, "Bob", "Community and Growth");
    assert s2 == SeedCandidates(s);
    var s4 := SeedUsers(s2);
    assert Valid(s4) by {
      var s3 := InsertUserOrIgnore(s2, User("voter1", "Voter One", Voter, false));
      assert Valid(s3);
    }
    assert Init(s) == s4;
  }

  lemma InsertCandidateKeepsValid(s: Store, name: string, manifesto: string)
    requires Valid(s)
    ensures Valid(InsertCandidateOrIgnore(s, name, manifesto))
  {
  }

  // ---------------------------------------------------------------------------
  // Every store handler keeps the invariants

  /** One button press of the admin, registration or voting tabs. */
  datatype Action =
    | RegisterVoter(username: string, displayName: string)
    | VerifySelected(user: Option<string>)
    | RemoveSelectedVoter(user: Option<string>)
    | AddNewCandidate(name: string, manifesto: string)
    | EditSelected(candidate: Option<nat>, name: string, manifesto: string)
    | RemoveSelectedCandidate(candidate: Option<nat>)
    | Start
    | End
    | Vote(candidate: Option<nat>)

  function Apply(s: Store, sess: Session, a: Action): Step<Store>
  {
    match a
    case RegisterVoter(u, d) => OnRegister(s, u, d)
    case VerifySelected(u) => OnVerify(s, sess, u)
    case RemoveSelectedVoter(u) => OnRemoveVoter(s, sess, u)
    case AddNewCandidate(n, m) => OnAddCandidate(s, sess, n, m)
    case EditSelected(c, n, m) => OnEditCandidate(s, sess, c, n, m)
    case RemoveSelectedCandidate(c) => OnRemoveCandidate(s, sess, c)
    case Start => OnStartElection(s, sess)
    case End => OnEndElection(s, sess)
    case Vote(c) => OnCastVote(s, sess, c)
  }

  /** Tallies move only through voting: a surviving row never loses votes
      and gains some only by a vote, a new row starts at zero. */
  ghost predicate TalliesOnlyGrowByVoting(s: Store, r: Store, a: Action)
  {
    && (forall id :: id in r.candidates && id in s.candidates ==>
          r.candidates[id].votes >= s.candidates[id].votes)
    && (forall id :: id in r.candidates && id !in s.candidates ==> r.candidates[id].votes == 0)
    && (!a.Vote? ==> forall id :: id in r.candidates && id in s.candidates ==>
          r.candidates[id].votes == s.candidates[id].votes)
  }

  /** What every handler keeps: a valid store, a sequence that never goes
      back, and tallies that move only by voting. */
  ghost predicate KeepsInvariants(s: Store, r: Store, a: Action)
  {
    Valid(r) && r.lastId >= s.lastId && TalliesOnlyGrowByVoting(s, r, a)
  }

  lemma RegisterKeepsInvariants(s: Store, u: string, d: string)
    requires Valid(s)
    ensures KeepsInvariants(s, OnRegister(s, u, d).next, RegisterVoter(u, d))
  {
  }

  lemma VerifyKeepsInvariants(s: Store, sess: Session, u: Option<string>)
    requires Valid(s)
    ensures KeepsInvariants(s, OnVerify(s, sess, u).next, VerifySelected(u))
  {
  }

  lemma RemoveVoterKeepsInvariants(s: Store, sess: Session, u: Option<string>)
    requires Valid(s)
    ensures KeepsInvariants(s, OnRemoveVoter(s, sess, u).next, RemoveSelectedVoter(u))
  {
  }

  lemma AddCandidateKeepsInvariants(s: Store, sess: Session, name: string, manifesto: string)
    requires Valid(s)
    ensures KeepsInvariants(s, OnAddCandidate(s, sess, name, manifesto).next, AddNewCandidate(name, manifesto))
  {
  }

  lemma EditCandidateKeepsInvariants(s: Store, sess: Session, c: Option<nat>, name: string, manifesto: string)
    requires Valid(s)
    ensures KeepsInvariants(s, OnEditCandidate(s, sess, c, name, manifesto).next, EditSelected(c, name, manifesto))
  {
  }

  lemma RemoveCandidateKeepsInvariants(s: Store, sess: Session, c: Option<nat>)
    requires Valid(s)
    ensures KeepsInvariants(s, OnRemoveCandidate(s, sess, c).next, RemoveSelectedCandidate(c))
  {
  }

  lemma StartKeepsInvariants(s: Store, sess: Session)
    requires Valid(s)
    ensures KeepsInvariants(s, OnStartElection(s, sess).next, Start)
  {
  }

  lemma EndKeepsInvariants(s: Store, sess: Session)
    requires Valid(s)
    ensures KeepsInvariants(s, OnEndElection(s, sess).next, End)
  {
  }

  lemma VoteKeepsInvariants(s: Store, sess: Session, c: Option<nat>)
    requires Valid(s)
    ensures KeepsInvariants(s, OnCastVote(s, sess, c).next, Vote(c))
  {
  }

  /** Every handler keeps the store valid, never lowers the AUTOINCREMENT
      sequence, and moves tallies only by voting. */
  lemma ApplyKeepsInvariants(s: Store, sess: Session, a: Action)
    requires Valid(s)
    ensures Valid(Apply(s, sess, a).next)
    ensures Apply(s, sess, a).next.lastId >= s.lastId
    ensures TalliesOnlyGrowByVoting(s, Apply(s, sess, a).next, a)
  {
    match a
    case RegisterVoter(u, d) => RegisterKeepsInvariants(s, u, d);
    case VerifySelected(u) => VerifyKeepsInvariants(s, sess, u);
    case RemoveSelectedVoter(u) => RemoveVoterKeepsInvariants(s, sess, u);
    case AddNewCandidate(n, m) => AddCandidateKeepsInvariants(s, sess, n, m);
    case EditSelected(c, n, m) => EditCandidateKeepsInvariants(s, sess, c, n, m);
    case RemoveSelectedCandidate(c) => RemoveCandidateKeepsInvariants(s, sess, c);
    case Start => StartKeepsInvariants(s, sess);
    case End => EndKeepsInvariants(s, sess);
    case Vote(c) => VoteKeepsInvariants(s, sess, c);
  }

  /** Valid stores stay valid along any sequence of handler calls. */
  function ApplyAll(s: Store, sess: Session, actions: seq<Action>): Store
    decreases |actions|
  {
    if actions == [] then s else ApplyAll(Apply(s, sess, actions[0]).next, sess, actions[1..])
  }

  lemma {:induction false} ApplyAllKeepsValid(s: Store, sess: Session, actions: seq<Action>)
    requires Valid(s)
    ensures Valid(ApplyAll(s, sess, actions))
    ensures ApplyAll(s, sess, actions).lastId >= s.lastId
    decreases |actions|
  {
    if actions != [] {
      ApplyKeepsInvariants(s, sess, actions[0]);
      ApplyAllKeepsValid(Apply(s, sess, actions[0]).next, sess, actions[1..]);
    }
  }

  /** Without a logged-in admin every admin-only button is refused and the
      store is left alone; logging out takes the admin rights away. */
  lemma LogoutRevokesAdmin(s: Store, sess: Session, a: Action)
    requires !a.RegisterVoter? && !a.Vote?
    ensures Apply(s, OnAdminLogout(sess), a) == Step(Failed(AdminRequired), s)
  {
  }

  // ---------------------------------------------------------------------------
  // Vote casting and the tally

  /** A vote transaction adds to the total tally exactly as many votes as it
      adds voters to the voted set: one on commit, none on rollback. */
  lemma CastVoteTally(s: Store, username: string, candidateId: nat)
    requires Valid(s)
    ensures var r := CastVote(s, username, candidateId).next;
      && Valid(r)
      && s.voted <= r.voted
      && |r.voted| == |s.voted| + (if r.voted == s.voted then 0 else 1)
      && TotalVotes(r) == TotalVotes(s) + |r.voted| - |s.voted|
  {
    var r := CastVote(s, username, candidateId);
    if r.outcome == Done {
      VotesFromBump(s.candidates, candidateId, 0, s.lastId + 1);
      assert r.next.candidates == s.candidates[candidateId := s.candidates[candidateId].(votes := s.candidates[candidateId].votes + 1)];
      assert username !in s.voted;
      assert r.next.voted != s.voted by { assert username in r.next.voted; }
    }
  }

  /** A vote request: who votes for which candidate id. */
  datatype Ballot = Ballot(username: string, candidateId: nat)

  /** The vote transactions of `ballots`, run one after another. Each runs
      atomically, so any interleaving of concurrent callers is one of these
      sequences. */
  function CastAll(s: Store, ballots: seq<Ballot>): Store
    decreases |ballots|
  {
    if ballots == [] then s
    else CastAll(CastVote(s, ballots[0].username, ballots[0].candidateId).next, ballots[1..])
  }

  function Voters(ballots: seq<Ballot>): set<string>
  {
    set i | 0 <= i < |ballots| :: ballots[i].username
  }

  /** Over any sequence of votes the tally grows by exactly the number of
      new voters, and only voters that cast a ballot become voters. */
  lemma {:induction false} CastAllTally(s: Store, ballots: seq<Ballot>)
    requires Valid(s)
    ensures var r := CastAll(s, ballots);
      && Valid(r)
      && s.voted <= r.voted <= s.voted + Voters(ballots)
      && TotalVotes(r) == TotalVotes(s) + |r.voted| - |s.voted|
    decreases |ballots|
  {
    if ballots != [] {
      var b := ballots[0];
      var s1 := CastVote(s, b.username, b.candidateId).next;
      CastVoteTally(s, b.username, b.candidateId);
      CastAllTally(s1, ballots[1..]);
      assert s1.voted <= s.voted + {b.username};
      assert Voters(ballots) == {b.username} + Voters(ballots[1..]) by {
        forall v | v in Voters(ballots) ensures v in {b.username} + Voters(ballots[1..]) {
          var i :| 0 <= i < |ballots| && ballots[i].username == v;
          if i > 0 { assert ballots[1..][i - 1].username == v; }
        }
        forall v | v in Voters(ballots[1..]) ensures v in Voters(ballots) {
          var i :| 0 <= i < |ballots[1..]| && ballots[1..][i].username == v;
          assert ballots[i + 1].username == v;
        }
      }
    }
  }

  /** One person, one vote: however many vote requests one voter sends, the
      total tally grows by at most one, and by none if the voter had voted. */
  lemma {:induction false} SameVoterVotesOnce(s: Store, username: string, ballots: seq<Ballot>)
    requires Valid(s)
    requires forall i :: 0 <= i < |ballots| ==> ballots[i].username == username
    ensures TotalVotes(CastAll(s, ballots)) <= TotalVotes(s) + 1
    ensures username in s.voted ==> TotalVotes(CastAll(s, ballots)) == TotalVotes(s)
  {
    CastAllTally(s, ballots);
    var r := CastAll(s, ballots);
    assert Voters(ballots) <= {username} by {
      forall v | v in Voters(ballots) ensures v == username {
        var i :| 0 <= i < |ballots| && ballots[i].username == v;
      }
    }
    GrowByOne(s.voted, r.voted, username);
  }

  /** A set squeezed between `a` and `a + {x}` has at most one more element
      than `a`, and none more when `x` is already in `a`. */
  lemma GrowByOne(a: set<string>, b: set<string>, x: string)
    requires a <= b <= a + {x}
    ensures |b| <= |a| + 1
    ensures x in a ==> |b| == |a|
  {
    if x in b && x !in a {
      assert b == a + {x};
    } else {
      assert b == a;
    }
  }

  /** A second press of the vote button by the same voter is refused and
      changes nothing, whatever candidate it names. */
  lemma SecondVoteRefused(s: Store, sess: Session, first: Option<nat>, second: Option<nat>)
    requires OnCastVote(s, sess, first).outcome == Done
    ensures var s1 := OnCastVote(s, sess, first).next;
      OnCastVote(s1, sess, second) == Step(Failed(AlreadyVoted), s1)
  {
    var s1 := OnCastVote(s, sess, first).next;
    assert s1.settings == s.settings;
    assert sess.voter.value.username in s1.voted;
  }

  /** Removing a candidate takes exactly that candidate's votes out of the
      total. */
  lemma RemoveCandidateTally(s: Store, sess: Session, c: Option<nat>)
    requires Valid(s)
    ensures var st := OnRemoveCandidate(s, sess, c);
      TotalVotes(st.next) + (if st.outcome == Done && c.value in s.candidates then s.candidates[c.value].votes else 0)
      == TotalVotes(s)
  {
    var st := OnRemoveCandidate(s, sess, c);
    if st.outcome == Done {
      assert st.next.candidates == s.candidates - {c.value};
      if c.value in s.candidates {
        VotesFromRemove(s.candidates, c.value, 0, s.lastId + 1);
      } else {
        assert st.next.candidates == s.candidates;
      }
    }
  }

  /** A new candidate adds nothing to the total: its row starts at zero. */
  lemma AddCandidateTally(s: Store, sess: Session, name: string, manifesto: string)
    requires Valid(s)
    ensures TotalVotes(OnAddCandidate(s, sess, name, manifesto).next) == TotalVotes(s)
  {
    var st := OnAddCandidate(s, sess, name, manifesto);
    if st.outcome == Done {
      var id := s.lastId + 1;
      assert st.next.candidates - {id} == s.candidates;
      VotesFromRemove(st.next.candidates, id, 0, id + 1);
      VotesFromExtend(s.candidates, 0, s.lastId + 1, id + 1);
    }
  }

  /** Editing a candidate keeps every tally and so the total. */
  lemma EditCandidateTally(s: Store, sess: Session, c: Option<nat>, name: string, manifesto: string)
    ensures TotalVotes(OnEditCandidate(s, sess, c, name, manifesto).next) == TotalVotes(s)
  {
    var st := OnEditCandidate(s, sess, c, name, manifesto);
    VotesFromSameTallies(s.candidates, st.next.candidates, 0, s.lastId + 1);
  }

  /** Every button but voting keeps the total tally, except that removing a
      candidate takes exactly that candidate's votes out of it. */
  lemma AdminActionsTally(s: Store, sess: Session, a: Action)
    requires Valid(s)
    requires !a.Vote?
    ensures var r := Apply(s, sess, a).next;
      TotalVotes(r) + (if a.RemoveSelectedCandidate? && Apply(s, sess, a).outcome == Done
                          && a.candidate.value in s.candidates
                       then s.candidates[a.candidate.value].votes else 0)
      == TotalVotes(s)
  {
    match a
    case RemoveSelectedCandidate(c) => RemoveCandidateTally(s, sess, c);
    case AddNewCandidate(n, m) => AddCandidateTally(s, sess, n, m);
    case EditSelected(c, n, m) => EditCandidateTally(s, sess, c, n, m);
    case _ =>
  }

  // ---------------------------------------------------------------------------
  // Election session

  /** Start and end are each other's inverse, and a repeated press of either
      is refused without touching the store. */
  lemma StartEndPair(s: Store, sess: Session)
    requires Valid(s) && RequireAdmin(sess) && !IsElectionActive(s)
    ensures var started := OnStartElection(s, sess);
      && started.outcome == Done && IsElectionActive(started.next)
      && OnStartElection(started.next, sess) == Step(Failed(AlreadyActive), started.next)
      && var ended := OnEndElection(started.next, sess);
         && ended.outcome == Done && !IsElectionActive(ended.next)
         && OnEndElection(ended.next, sess) == Step(Failed(NotActive), ended.next)
  {
  }

  /** Closing an election that was opened from the stored "false" flag
      restores the store exactly. */
  lemma StartEndRoundTrip(s: Store, sess: Session)
    requires RequireAdmin(sess) && ElectionKey in s.settings && s.settings[ElectionKey] == BoolText(false)
    ensures OnEndElection(OnStartElection(s, sess).next, sess).next == s
  {
    ParseBoolText(false);
    var s1 := OnStartElection(s, sess).next;
    assert s1.settings == s.settings[ElectionKey := BoolText(true)];
    assert s1.settings[ElectionKey := BoolText(false)] == s.settings;
  }

  // ---------------------------------------------------------------------------
  // Voters and candidates

  /** Verifying twice is verifying once. */
  lemma VerifyIdempotent(s: Store, sess: Session, selected: Option<string>)
    ensures var r := OnVerify(s, sess, selected);
      OnVerify(r.next, sess, selected).next == r.next
  {
    var r := OnVerify(s, sess, selected);
    if r.outcome == Done && selected.value in s.users {
      var u := selected.value;
      assert r.next.users[u].verified;
      assert r.next.users[u := r.next.users[u].(verified := true)] == r.next.users;
    }
  }

  /** A new candidate's id is larger than every id in use, so it never
      coincides with an existing candidate; removing it again restores the
      table. */
  lemma AddCandidateFreshId(s: Store, sess: Session, name: string, manifesto: string)
    requires Valid(s)
    requires OnAddCandidate(s, sess, name, manifesto).outcome == Done
    ensures var r := OnAddCandidate(s, sess, name, manifesto).next;
      && (forall id :: id in s.candidates ==> id < r.lastId)
      && r.candidates[r.lastId].votes == 0
      && OnRemoveCandidate(r, sess, Some(r.lastId)).next.candidates == s.candidates
  {
    var r := OnAddCandidate(s, sess, name, manifesto).next;
    assert r.candidates - {r.lastId} == s.candidates;
  }

  /** Removing a voter just registered gives back the store from before the
      registration. */
  lemma RegisterRemoveRoundTrip(s: Store, admin: Session, username: string, displayName: string)
    requires RequireAdmin(admin) && username !in s.voted
    requires OnRegister(s, username, displayName).outcome == Done
    ensures OnRemoveVoter(OnRegister(s, username, displayName).next, admin, Some(username)) == Step(Done, s)
  {
    var s1 := OnRegister(s, username, displayName).next;
    assert s1.users - {username} == s.users;
    assert s1.voted - {username} == s.voted;
  }

  /** Editing a candidate back to its old name and manifesto succeeds and
      gives back the store from before the edit. */
  lemma EditRevert(s: Store, sess: Session, id: nat, name: string, manifesto: string)
    requires Valid(s) && id in s.candidates && s.candidates[id].name != ""
    requires OnEditCandidate(s, sess, Some(id), name, manifesto).outcome == Done
    ensures var c := s.candidates[id];
      var s1 := OnEditCandidate(s, sess, Some(id), name, manifesto).next;
      OnEditCandidate(s1, sess, Some(id), c.name, c.manifesto) == Step(Done, s)
  {
    var c := s.candidates[id];
    var s1 := OnEditCandidate(s, sess, Some(id), name, manifesto).next;
    assert !NameTaken(s1.candidates, c.name, id);
    assert s1.candidates[id := s1.candidates[id].(name := c.name, manifesto := c.manifesto)] == s.candidates;
  }

  /** Logging out undoes a login, whether it succeeded or not. */
  lemma LoginLogoutRoundTrip(s: Store, sess: Session, user: string, password: string, username: string)
    ensures OnAdminLogout(OnAdminLogin(sess, user, password).next) == OnAdminLogout(sess)
    ensures OnVoterLogout(OnVoterLogin(s, sess, username).next) == OnVoterLogout(sess)
  {
  }

  /** Registering a new voter, verifying them and logging them in lets them
      cast exactly one vote; removing them afterwards keeps the tally. */
  lemma RegisterVerifyVoteOnce(s: Store, admin: Session, username: string, displayName: string, id: nat)
    requires Valid(s) && RequireAdmin(admin) && IsElectionActive(s)
    requires username != "" && displayName != "" && username !in s.users && username !in s.voted
    requires id in s.candidates
    ensures var s1 := OnRegister(s, username, displayName).next;
      var s2 := OnVerify(s1, admin, Some(username)).next;
      var login := OnVoterLogin(s2, NoSession, username);
      var v1 := OnCastVote(s2, login.next, Some(id));
      var v2 := OnCastVote(v1.next, login.next, Some(id));
      var s3 := OnRemoveVoter(v2.next, admin, Some(username)).next;
      && login.outcome == Done
      && v1.outcome == Done
      && v1.next.candidates[id].votes == s.candidates[id].votes + 1
      && v2 == Step(Failed(AlreadyVoted), v1.next)
      && s3.candidates == v1.next.candidates
  {
    var s1 := OnRegister(s, username, displayName).next;
    var s2 := OnVerify(s1, admin, Some(username)).next;
    assert s2.users[username] == User(username, displayName, Voter, true);
    var login := OnVoterLogin(s2, NoSession, username);
    assert login.next.voter == Some(s2.users[username]);
    var v1 := OnCastVote(s2, login.next, Some(id));
    SecondVoteRefused(s2, login.next, Some(id), Some(id));
  }

  /** As written, removing a voter also deletes their voted row while their
      login session stays open, so the same voter can vote a second time. */
  lemma RemovedVoterVotesAgain(s: Store, admin: Session, voter: Session, id: nat)
    requires RequireAdmin(admin) && IsElectionActive(s)
    requires voter.voter.Some? && voter.voter.value.username in s.voted
    requires id in s.candidates
    ensures var s1 := OnRemoveVoter(s, admin, Some(voter.voter.value.username)).next;
      var r := OnCastVote(s1, voter, Some(id));
      && OnCastVote(s, voter, Some(id)) == Step(Failed(AlreadyVoted), s)
      && r.outcome == Done
      && r.next.candidates[id].votes == s.candidates[id].votes + 1
  {
    var s1 := OnRemoveVoter(s, admin, Some(voter.voter.value.username)).next;
    assert s1.settings == s.settings;
  }

  // ---------------------------------------------------------------------------
  // Results

  /** On a valid store, results are announced exactly when the election is
      closed and some candidate exists. */
  lemma AnnounceAvailable(s: Store)
    requires Valid(s)
    ensures AnnounceResults(s).Ok? <==> !IsElectionActive(s) && s.candidates != map[]
  {
  }

  /** The announced count is the largest tally of the table: no candidate
      has more, and some candidate has exactly that many. */
  lemma AnnounceCountIsMax(s: Store)
    requires Valid(s) && AnnounceResults(s).Ok?
    ensures forall id :: id in s.candidates ==> s.candidates[id].votes <= AnnounceResults(s).value.votes
    ensures exists id :: id in s.candidates && s.candidates[id].votes == AnnounceResults(s).value.votes
  {
    LoadCandidatesComplete(s);
    var cs := LoadCandidates(s);
    var m := AnnounceResults(s).value.votes;
    forall id | id in s.candidates ensures s.candidates[id].votes <= m {
      assert s.candidates[id] in cs;
    }
    var i :| 0 <= i < |cs| && cs[i].votes == m;
    var id :| id in s.candidates && s.candidates[id] == cs[i];
  }

  /** The rows reported are exactly the candidates at the top count. */
  lemma AnnounceWinnersAtMax(s: Store)
    requires Valid(s) && AnnounceResults(s).Ok?
    ensures forall c :: c in Tied(LoadCandidates(s), AnnounceResults(s).value.votes) <==>
      c in s.candidates.Values && c.votes == AnnounceResults(s).value.votes
  {
    LoadCandidatesComplete(s);
    TiedMembers(LoadCandidates(s), AnnounceResults(s).value.votes);
  }

  /** The rows reported come in ascending id order. */
  lemma AnnounceWinnersOrdered(s: Store)
    requires Valid(s) && AnnounceResults(s).Ok?
    ensures Ascending(Tied(LoadCandidates(s), AnnounceResults(s).value.votes))
  {
    LoadCandidatesComplete(s);
    TiedAscending(LoadCandidates(s), AnnounceResults(s).value.votes);
  }

  /** The report names at least one candidate, those at the top count, and
      says "Winner" exactly when there is one. */
  lemma AnnounceReportShape(s: Store)
    requires AnnounceResults(s).Ok?
    ensures var a := AnnounceResults(s).value;
      var winners := Tied(LoadCandidates(s), a.votes);
      && WinnerNames(a) == Names(winners)
      && |WinnerNames(a)| >= 1
      && (a.Winner? <==> |WinnerNames(a)| == 1)
  {
    var cs := LoadCandidates(s);
    var a := AnnounceResults(s).value;
    TiedMembers(cs, a.votes);
    var i :| 0 <= i < |cs| && cs[i].votes == a.votes;
    assert cs[i] in Tied(cs, a.votes);
  }

  /** On a valid store the announcement is the arg-max of the tallies. */
  lemma AnnounceIsArgMax(s: Store)
    requires Valid(s)
    ensures AnnounceResults(s).Ok? <==> !IsElectionActive(s) && s.candidates != map[]
    ensures AnnounceResults(s).Ok? ==>
      var a := AnnounceResults(s).value;
      var winners := Tied(LoadCandidates(s), a.votes);
      && (forall id :: id in s.candidates ==> s.candidates[id].votes <= a.votes)
      && (exists id :: id in s.candidates && s.candidates[id].votes == a.votes)
      && (forall c :: c in winners <==> c in s.candidates.Values && c.votes == a.votes)
      && Ascending(winners)
      && WinnerNames(a) == Names(winners)
      && |WinnerNames(a)| >= 1
      && (a.Winner? <==> |WinnerNames(a)| == 1)
  {
    AnnounceAvailable(s);
    if AnnounceResults(s).Ok? {
      AnnounceCountIsMax(s);
      AnnounceWinnersAtMax(s);
      AnnounceWinnersOrdered(s);
      AnnounceReportShape(s);
    }
  }
}
