/** The event handlers of EVotingSystemFeatures.java without their Swing
    parts: each takes the store, the login session and the form input or
    list selection, and returns an outcome and the next store (or, for the
    logins, the next session). A refused handler never changes the store. */
module Handlers {
  import opened Entities
  import opened Db
  import opened Persistence
  import opened Tally

  /** The in-memory login state (`loggedInAdmin`, `loggedInVoter`). It is
      not persisted and not rechecked against the store after login. */
  datatype Session = Session(admin: Option<User>, voter: Option<User>)

  const NoSession := Session(None, None)

  /** The demo admin credentials. */
  const AdminName := "admin"
  const AdminPassword := "admin"

  /** `onAdminLogin`: the user name matches "admin" ignoring case and the
      password is exactly "admin". The store is not consulted. A failed
      login leaves the session as it was. */
  function OnAdminLogin(sess: Session, user: string, password: string): (r: Step<Session>)
    ensures r.outcome == Done <==> EqualsIgnoreCase(user, AdminName) && password == AdminPassword
    ensures r.outcome.Failed? ==> r == Step(Failed(InvalidCredentials), sess)
    ensures r.outcome == Done ==>
      && r.next.voter == sess.voter
      && r.next.admin == Some(User("admin", "Administrator", Admin, true))
  {
    if EqualsIgnoreCase(user, AdminName) && password == AdminPassword then
      Step(Done, sess.(admin := Some(NewUser("admin", "Administrator", Admin))))
    else Step(Failed(InvalidCredentials), sess)
  }

  /** The admin logout button. */
  function OnAdminLogout(sess: Session): Session
  {
    sess.(admin := None)
  }

  /** The voter logout button. */
  function OnVoterLogout(sess: Session): Session
  {
    sess.(voter := None)
  }

  /** `onVoterLogin`: the user must exist, be a voter and be verified; the
      logged-in voter is then the stored row. A failed login leaves the
      session as it was. */
  function OnVoterLogin(s: Store, sess: Session, username: string): (r: Step<Session>)
    ensures r.outcome == Done <==>
      username != "" && username in s.users && s.users[username].role == Voter && s.users[username].verified
    ensures r.outcome == Done ==> r.next == sess.(voter := Some(s.users[username]))
    ensures r.outcome.Failed? ==> r.next == sess
    ensures username == "" ==> r.outcome == Failed(MissingUsername)
    ensures username != "" && (username !in s.users || s.users[username].role != Voter) ==>
      r.outcome == Failed(NoSuchVoter)
    ensures (username != "" && username in s.users && s.users[username].role == Voter
             && !s.users[username].verified) ==> r.outcome == Failed(NotVerified)
  {
    if username == "" then Step(Failed(MissingUsername), sess)
    else
      match GetUser(s, username)
      case None => Step(Failed(NoSuchVoter), sess)
      case Some(u) =>
        if u.role != Voter then Step(Failed(NoSuchVoter), sess)
        else if !u.verified then Step(Failed(NotVerified), sess)
        else Step(Done, sess.(voter := Some(u)))
  }

  /** `requireAdmin`: an admin is logged in. */
  predicate RequireAdmin(sess: Session)
  {
    sess.admin.Some?
  }

  /** The register button. It is open to anyone: no admin is required. */
  function OnRegister(s: Store, username: string, displayName: string): (r: Step<Store>)
    ensures r.outcome == Done <==> username != "" && displayName != "" && username !in s.users
    ensures (username == "" || displayName == "") ==> r == Step(Failed(MissingField), s)
    ensures username != "" && displayName != "" && username in s.users ==> r == Step(Failed(UsernameExists), s)
    ensures r.outcome == Done ==>
      && r.next.users == s.users[username := User(username, displayName, Voter, false)]
      && r.next.candidates == s.candidates && r.next.settings == s.settings
      && r.next.voted == s.voted && r.next.lastId == s.lastId
  {
    if username == "" || displayName == "" then Step(Failed(MissingField), s)
    else if UserExists(s, username) then Step(Failed(UsernameExists), s)
    else Step(Done, AddVoter(s, username, displayName))
  }

  /** The verify button: sets the flag of the selected user, if the row is
      still there, and nothing else. */
  function OnVerify(s: Store, sess: Session, selected: Option<string>): (r: Step<Store>)
    ensures !RequireAdmin(sess) ==> r == Step(Failed(AdminRequired), s)
    ensures RequireAdmin(sess) && selected.None? ==> r == Step(Failed(NothingSelected), s)
    ensures r.outcome == Done <==> RequireAdmin(sess) && selected.Some?
    ensures r.outcome == Done ==>
      && r.next.users.Keys == s.users.Keys
      && (forall u :: u in s.users ==>
            r.next.users[u] == (if u == selected.value then s.users[u].(verified := true) else s.users[u]))
      && r.next.candidates == s.candidates && r.next.settings == s.settings
      && r.next.voted == s.voted && r.next.lastId == s.lastId
    ensures r.outcome.Failed? ==> r.next == s
  {
    if !RequireAdmin(sess) then Step(Failed(AdminRequired), s)
    else if selected.None? then Step(Failed(NothingSelected), s)
    else Step(Done, VerifyVoter(s, selected.value))
  }

  /** The remove-voter button: deletes the selected user and its voted row.
      Candidates and their tallies are untouched. */
  function OnRemoveVoter(s: Store, sess: Session, selected: Option<string>): (r: Step<Store>)
    ensures !RequireAdmin(sess) ==> r == Step(Failed(AdminRequired), s)
    ensures RequireAdmin(sess) && selected.None? ==> r == Step(Failed(NothingSelected), s)
    ensures r.outcome == Done <==> RequireAdmin(sess) && selected.Some?
    ensures r.outcome == Done ==>
      && r.next.users == s.users - {selected.value}
      && r.next.voted == s.voted - {selected.value}
      && r.next.candidates == s.candidates && r.next.settings == s.settings && r.next.lastId == s.lastId
    ensures r.outcome.Failed? ==> r.next == s
  {
    if !RequireAdmin(sess) then Step(Failed(AdminRequired), s)
    else if selected.None? then Step(Failed(NothingSelected), s)
    else Step(Done, RemoveVoter(s, selected.value))
  }

  /** The add-candidate button: a new row with zero votes under a fresh id,
      unless the name is empty or taken. */
  function OnAddCandidate(s: Store, sess: Session, name: string, manifesto: string): (r: Step<Store>)
    ensures !RequireAdmin(sess) ==> r == Step(Failed(AdminRequired), s)
    ensures RequireAdmin(sess) && name == "" ==> r == Step(Failed(NameRequired), s)
    ensures RequireAdmin(sess) && name != "" && NameTaken(s.candidates, name, -1) ==>
      r == Step(Failed(DuplicateName), s)
    ensures r.outcome == Done <==> RequireAdmin(sess) && name != "" && !NameTaken(s.candidates, name, -1)
    ensures r.outcome == Done ==>
      && r.next.lastId == s.lastId + 1
      && r.next.candidates == s.candidates[r.next.lastId := Candidate(r.next.lastId, name, manifesto, 0)]
      && r.next.users == s.users && r.next.settings == s.settings && r.next.voted == s.voted
    ensures r.outcome.Failed? ==> r.next == s
  {
    if !RequireAdmin(sess) then Step(Failed(AdminRequired), s)
    else if name == "" then Step(Failed(NameRequired), s)
    else AddCandidate(s, name, manifesto)
  }

  /** The edit-candidate button: rewrites name and manifesto of the selected
      id; a stale id matches no row. Tallies are never touched. */
  function OnEditCandidate(s: Store, sess: Session, selected: Option<nat>, name: string, manifesto: string): (r: Step<Store>)
    ensures !RequireAdmin(sess) ==> r == Step(Failed(AdminRequired), s)
    ensures RequireAdmin(sess) && selected.None? ==> r == Step(Failed(NothingSelected), s)
    ensures RequireAdmin(sess) && selected.Some? && name == "" ==> r == Step(Failed(NameRequired), s)
    ensures r.outcome == Done <==>
      RequireAdmin(sess) && selected.Some? && name != ""
      && !(selected.value in s.candidates && NameTaken(s.candidates, name, selected.value))
    ensures r.outcome == Done ==>
      && r.next.candidates.Keys == s.candidates.Keys
      && (forall id :: id in s.candidates ==>
            r.next.candidates[id] ==
              (if id == selected.value then s.candidates[id].(name := name, manifesto := manifesto)
               else s.candidates[id]))
      && r.next.users == s.users && r.next.settings == s.settings
      && r.next.voted == s.voted && r.next.lastId == s.lastId
    ensures r.outcome.Failed? ==> r.next == s
  {
    if !RequireAdmin(sess) then Step(Failed(AdminRequired), s)
    else if selected.None? then Step(Failed(NothingSelected), s)
    else if name == "" then Step(Failed(NameRequired), s)
    else UpdateCandidate(s, selected.value, name, manifesto)
  }

  /** The remove-candidate button: deletes the selected row with its tally. */
  function OnRemoveCandidate(s: Store, sess: Session, selected: Option<nat>): (r: Step<Store>)
    ensures !RequireAdmin(sess) ==> r == Step(Failed(AdminRequired), s)
    ensures RequireAdmin(sess) && selected.None? ==> r == Step(Failed(NothingSelected), s)
    ensures r.outcome == Done <==> RequireAdmin(sess) && selected.Some?
    ensures r.outcome == Done ==>
      && r.next.candidates == s.candidates - {selected.value}
      && r.next.users == s.users && r.next.settings == s.settings
      && r.next.voted == s.voted && r.next.lastId == s.lastId
    ensures r.outcome.Failed? ==> r.next == s
  {
    if !RequireAdmin(sess) then Step(Failed(AdminRequired), s)
    else if selected.None? then Step(Failed(NothingSelected), s)
    else Step(Done, RemoveCandidate(s, selected.value))
  }

  /** Everything but the settings table is as it was. */
  ghost predicate OnlySettingsChange(s: Store, r: Store)
  {
    r.users == s.users && r.candidates == s.candidates && r.voted == s.voted && r.lastId == s.lastId
    && r.settings.Keys == s.settings.Keys
    && forall k :: k in s.settings && k != ElectionKey ==> r.settings[k] == s.settings[k]
  }

  /** The start button: opens the election unless it is already open. */
  function OnStartElection(s: Store, sess: Session): (r: Step<Store>)
    ensures !RequireAdmin(sess) ==> r == Step(Failed(AdminRequired), s)
    ensures RequireAdmin(sess) && IsElectionActive(s) ==> r == Step(Failed(AlreadyActive), s)
    ensures r.outcome == Done <==> RequireAdmin(sess) && !IsElectionActive(s)
    ensures r.outcome == Done ==>
      OnlySettingsChange(s, r.next) && (ElectionKey in s.settings ==> IsElectionActive(r.next))
    ensures r.outcome.Failed? ==> r.next == s
  {
    if !RequireAdmin(sess) then Step(Failed(AdminRequired), s)
    else if IsElectionActive(s) then Step(Failed(AlreadyActive), s)
    else Step(Done, SetElectionActive(s, true))
  }

  /** The end button: closes the election unless it is already closed. */
  function OnEndElection(s: Store, sess: Session): (r: Step<Store>)
    ensures !RequireAdmin(sess) ==> r == Step(Failed(AdminRequired), s)
    ensures RequireAdmin(sess) && !IsElectionActive(s) ==> r == Step(Failed(NotActive), s)
    ensures r.outcome == Done <==> RequireAdmin(sess) && IsElectionActive(s)
    ensures r.outcome == Done ==> OnlySettingsChange(s, r.next) && !IsElectionActive(r.next)
    ensures r.outcome.Failed? ==> r.next == s
  {
    if !RequireAdmin(sess) then Step(Failed(AdminRequired), s)
    else if !IsElectionActive(s) then Step(Failed(NotActive), s)
    else Step(Done, SetElectionActive(s, false))
  }

  /** `onCastVote`: a logged-in voter, an open election, no earlier vote and
      a selected candidate are checked before the vote transaction runs. */
  function OnCastVote(s: Store, sess: Session, selected: Option<nat>): (r: Step<Store>)
    ensures sess.voter.None? ==> r == Step(Failed(NotLoggedIn), s)
    ensures sess.voter.Some? && !IsElectionActive(s) ==> r == Step(Failed(NotActive), s)
    ensures sess.voter.Some? && IsElectionActive(s) && HasVoted(s, sess.voter.value.username) ==>
      r == Step(Failed(AlreadyVoted), s)
    ensures (sess.voter.Some? && IsElectionActive(s) && !HasVoted(s, sess.voter.value.username)
             && selected.None?) ==> r == Step(Failed(NothingSelected), s)
    ensures r.outcome == Done <==>
      sess.voter.Some? && IsElectionActive(s) && !HasVoted(s, sess.voter.value.username)
      && selected.Some? && selected.value in s.candidates
    ensures (sess.voter.Some? && IsElectionActive(s) && !HasVoted(s, sess.voter.value.username)
             && selected.Some?) ==> r == CastVote(s, sess.voter.value.username, selected.value)
    ensures r.outcome.Failed? ==> r.next == s
  {
    if sess.voter.None? then Step(Failed(NotLoggedIn), s)
    else if !IsElectionActive(s) then Step(Failed(NotActive), s)
    else if HasVoted(s, sess.voter.value.username) then Step(Failed(AlreadyVoted), s)
    else if selected.None? then Step(Failed(NothingSelected), s)
    else CastVote(s, sess.voter.value.username, selected.value)
  }

  /** `announceResults`: refused during the election and without candidates;
      otherwise the scan over the rows in id order, reported as one winner
      or as a tie. The store is only read. */
  function AnnounceResults(s: Store): (r: Result<Announcement>)
    ensures IsElectionActive(s) ==> r == Err(ElectionStillActive)
    ensures !IsElectionActive(s) && LoadCandidates(s) == [] ==> r == Err(NoCandidates)
    ensures r.Ok? <==> !IsElectionActive(s) && LoadCandidates(s) != []
    ensures r.Ok? ==>
      var cs := LoadCandidates(s);
      && r.value.votes == MaxVotes(cs)
      && WinnerNames(r.value) == Names(Tied(cs, r.value.votes))
      && (r.value.Winner? <==> |Tied(cs, r.value.votes)| == 1)
  {
    if IsElectionActive(s) then Err(ElectionStillActive)
    else
      var cs := LoadCandidates(s);
      if cs == [] then Err(NoCandidates)
      else
        var (maxVotes, winners) := Scan(cs, -1, []);
        if |winners| == 1 then Ok(Winner(winners[0].name, maxVotes))
        else Ok(Tie(Names(winners), maxVotes))
  }
}
