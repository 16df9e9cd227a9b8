/** The database helpers of EVotingSystemFeatures.java (`dbUserExists`,
    `dbGetUser`, `dbAddVoter`, ..., `dbCastVote`), each read as one
    operation on the store. Most are one SQL statement and `dbCastVote` is
    one transaction; the two DELETEs of `dbRemoveVoter` are applied
    together. A statement that violates a key constraint changes nothing. */
module Persistence {
  import opened Entities
  import opened Db

  /** `dbUserExists`. */
  predicate UserExists(s: Store, username: string)
  {
    username in s.users
  }

  /** `dbGetUser`: the row of `username`, if any. */
  function GetUser(s: Store, username: string): (r: Option<User>)
    ensures r.Some? <==> UserExists(s, username)
    ensures r.Some? ==> r.value == s.users[username]
  {
    if username in s.users then Some(s.users[username]) else None
  }

  /** `dbAddVoter`: INSERT of an unverified voter. The primary key refuses a
      taken username; the handler swallows that error, so nothing changes. */
  function AddVoter(s: Store, username: string, displayName: string): (r: Store)
    ensures username in s.users ==> r == s
    ensures username !in s.users ==>
      r.users == s.users[username := User(username, displayName, Voter, false)]
    ensures r.candidates == s.candidates && r.settings == s.settings
    ensures r.voted == s.voted && r.lastId == s.lastId
  {
    if username in s.users then s
    else s.(users := s.users[username := NewUser(username, displayName, Voter)])
  }

  /** `dbVerifyVoter`: UPDATE of the verified flag; a missing row is no error. */
  function VerifyVoter(s: Store, username: string): (r: Store)
    ensures username !in s.users ==> r == s
    ensures username in s.users ==>
      r.users == s.users[username := s.users[username].(verified := true)]
    ensures r.users.Keys == s.users.Keys
    ensures r.candidates == s.candidates && r.settings == s.settings
    ensures r.voted == s.voted && r.lastId == s.lastId
  {
    if username in s.users then
      s.(users := s.users[username := s.users[username].(verified := true)])
    else s
  }

  /** `dbRemoveVoter`: DELETE from voted_users, then DELETE from users. */
  function RemoveVoter(s: Store, username: string): (r: Store)
    ensures username !in r.users && username !in r.voted
    ensures r.users == s.users - {username}
    ensures r.voted == s.voted - {username}
    ensures r.candidates == s.candidates && r.settings == s.settings && r.lastId == s.lastId
  {
    var afterVoted := s.(voted := s.voted - {username});
    afterVoted.(users := afterVoted.users - {username})
  }

  /** `dbAddCandidate`: INSERT with zero votes under the next AUTOINCREMENT
      id. UNIQUE(name) refuses a taken name and nothing changes. */
  function AddCandidate(s: Store, name: string, manifesto: string): (r: Step<Store>)
    ensures r.outcome == Done <==> !NameTaken(s.candidates, name, -1)
    ensures r.outcome.Failed? ==> r == Step(Failed(DuplicateName), s)
    ensures r.outcome == Done ==>
      && r.next.lastId == s.lastId + 1
      && r.next.candidates == s.candidates[r.next.lastId := Candidate(r.next.lastId, name, manifesto, 0)]
      && r.next.users == s.users && r.next.settings == s.settings && r.next.voted == s.voted
  {
    if NameTaken(s.candidates, name, -1) then Step(Failed(DuplicateName), s)
    else
      var id := s.lastId + 1;
      Step(Done, s.(candidates := s.candidates[id := Candidate(id, name, manifesto, 0)], lastId := id))
  }

  /** `dbUpdateCandidate`: UPDATE of name and manifesto by id. A missing id
      matches no row; a name carried by another candidate violates
      UNIQUE(name). Votes are never written. */
  function UpdateCandidate(s: Store, id: nat, name: string, manifesto: string): (r: Step<Store>)
    ensures r.outcome.Failed? <==> id in s.candidates && NameTaken(s.candidates, name, id)
    ensures r.outcome.Failed? ==> r == Step(Failed(DuplicateName), s)
    ensures id !in s.candidates ==> r == Step(Done, s)
    ensures r.outcome == Done && id in s.candidates ==>
      r.next.candidates == s.candidates[id := s.candidates[id].(name := name, manifesto := manifesto)]
    ensures r.next.users == s.users && r.next.settings == s.settings
    ensures r.next.voted == s.voted && r.next.lastId == s.lastId
  {
    if id !in s.candidates then Step(Done, s)
    else if NameTaken(s.candidates, name, id) then Step(Failed(DuplicateName), s)
    else Step(Done, s.(candidates := s.candidates[id := s.candidates[id].(name := name, manifesto := manifesto)]))
  }

  /** `dbRemoveCandidate`: DELETE by id; a missing id matches no row. */
  function RemoveCandidate(s: Store, id: nat): (r: Store)
    ensures id !in r.candidates
    ensures r.candidates == s.candidates - {id}
    ensures r.users == s.users && r.settings == s.settings
    ensures r.voted == s.voted && r.lastId == s.lastId
  {
    s.(candidates := s.candidates - {id})
  }

  /** `dbIsElectionActive`: a missing settings row reads as false, a present
      one through `Boolean.parseBoolean`. */
  function IsElectionActive(s: Store): (b: bool)
    ensures b ==> ElectionKey in s.settings
  {
    ElectionKey in s.settings && ParseBoolean(s.settings[ElectionKey])
  }

  /** `dbSetElectionActive`: an UPDATE, so it writes the flag only where the
      settings row exists. */
  function SetElectionActive(s: Store, active: bool): (r: Store)
    ensures ElectionKey in s.settings ==> IsElectionActive(r) == active
    ensures ElectionKey !in s.settings ==> r == s
    ensures r.settings.Keys == s.settings.Keys
    ensures forall k :: k in s.settings && k != ElectionKey ==> r.settings[k] == s.settings[k]
    ensures r.users == s.users && r.candidates == s.candidates
    ensures r.voted == s.voted && r.lastId == s.lastId
  {
    if ElectionKey in s.settings then
      ParseBoolText(active);
      s.(settings := s.settings[ElectionKey := BoolText(active)])
    else s
  }

  /** `dbHasVoted`. */
  predicate HasVoted(s: Store, username: string)
  {
    username in s.voted
  }

  /** `dbCastVote`: one transaction that checks the voted set, increments the
      tally of `candidateId` and records the voter. It rolls back, leaving
      the store as it was, when the voter has voted already or when the
      increment updates no row because the id does not resolve. */
  function CastVote(s: Store, username: string, candidateId: nat): (r: Step<Store>)
    ensures r.outcome == Done <==> !HasVoted(s, username) && candidateId in s.candidates
    ensures HasVoted(s, username) ==> r == Step(Failed(AlreadyVoted), s)
    ensures !HasVoted(s, username) && candidateId !in s.candidates ==>
      r == Step(Failed(CandidateNotFound), s)
    ensures r.outcome == Done ==>
      && r.next.voted == s.voted + {username}
      && r.next.candidates.Keys == s.candidates.Keys
      && r.next.candidates[candidateId] == s.candidates[candidateId].(votes := s.candidates[candidateId].votes + 1)
      && (forall id :: id in s.candidates && id != candidateId ==> r.next.candidates[id] == s.candidates[id])
      && r.next.users == s.users && r.next.settings == s.settings && r.next.lastId == s.lastId
  {
    if username in s.voted then Step(Failed(AlreadyVoted), s)
    else if candidateId !in s.candidates then Step(Failed(CandidateNotFound), s)
    else
      var c := s.candidates[candidateId];
      var tallied := s.(candidates := s.candidates[candidateId := c.(votes := c.votes + 1)]);
      Step(Done, tallied.(voted := tallied.voted + {username}))
  }
}
