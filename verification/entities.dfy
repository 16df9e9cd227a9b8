/** Entities of the e-voting core: the user and candidate records, the
    outcome of a handler, and the two text conventions the store relies on
    (case-insensitive keywords and booleans kept as text). */
module Entities {

  datatype Option<+T> = None | Some(value: T)

  datatype Role = Admin | Voter

  /** One row of the users table. `verified` matters for voters only. */
  datatype User = User(username: string, displayName: string, role: Role, verified: bool)

  /** The User constructor: a new voter starts unverified, every other
      role starts verified. */
  function NewUser(username: string, displayName: string, role: Role): (u: User)
    ensures u.username == username && u.displayName == displayName && u.role == role
    ensures u.verified <==> role == Admin
  {
    User(username, displayName, role, role != Voter)
  }

  /** One row of the candidates table. */
  datatype Candidate = Candidate(id: nat, name: string, manifesto: string, votes: nat)

  /** Why a handler refused to act. Each constructor stands for one of the
      error dialogs of the handlers, or for a constraint violation of the
      store that the handler swallows. */
  datatype Error =
    | InvalidCredentials        // admin name or password wrong
    | MissingUsername           // voter login with an empty name
    | NoSuchVoter               // unknown user, or a user that is not a voter
    | NotVerified               // voter exists but is not verified yet
    | AdminRequired             // no admin is logged in
    | MissingField              // registration without username or display name
    | UsernameExists            // registration of a taken username
    | NothingSelected           // no voter / candidate selected in the list
    | NameRequired              // candidate add or edit with an empty name
    | DuplicateName             // UNIQUE(name) of the candidates table violated
    | AlreadyActive             // start while the election runs
    | NotActive                 // end, or vote, while no election runs
    | NotLoggedIn               // vote without a logged-in voter
    | AlreadyVoted              // the voter is in the voted set
    | CandidateNotFound         // the vote's candidate id does not resolve
    | ElectionStillActive       // results asked for during the election
    | NoCandidates              // results asked for with no candidate

  datatype Outcome = Done | Failed(error: Error)

  /** The outcome of a handler together with the state it leaves behind. */
  datatype Step<S> = Step(outcome: Outcome, next: S)

  datatype Result<T> = Ok(value: T) | Err(error: Error)

  /** Case folding for comparisons against a lower-case ASCII keyword: ASCII
      capitals fold to their small letter, and both the dotted capital I
      (U+0130) and the dotless small i (U+0131) fold to 'i', because Java's
      equalsIgnoreCase matches either of them against 'i'. For keywords
      without 'k' and 's' (here "admin" and "true") no other character
      matches a keyword letter, so this folding decides those comparisons
      exactly. */
  function FoldCase(c: char): char
  {
    if 'A' <= c <= 'Z' then (c as int + 32) as char
    else if c == 'İ' || c == 'ı' then 'i'
    else c
  }

  /** `input.equalsIgnoreCase(keyword)` for a lower-case ASCII keyword. */
  predicate EqualsIgnoreCase(input: string, keyword: string)
  {
    |input| == |keyword| && forall i :: 0 <= i < |input| ==> FoldCase(input[i]) == keyword[i]
  }

  /** `Boolean.toString`: how the settings table stores a flag. */
  function BoolText(b: bool): string
  {
    if b then "true" else "false"
  }

  /** `Boolean.parseBoolean`: only a case variant of "true" reads as true. */
  function ParseBoolean(text: string): bool
  {
    EqualsIgnoreCase(text, "true")
  }

  /** Writing a flag as text and parsing it back gives the flag. */
  lemma ParseBoolText(b: bool)
    ensures ParseBoolean(BoolText(b)) == b
  {
    if !b {
      assert |BoolText(b)| == 5;
    }
  }
}
