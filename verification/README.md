# E-voting election core in Dafny

This project models a small single-process e-voting application:
- `EVotingSystemFeatures.java`, a Swing front end whose event handlers drive an election through SQL;
- `Db.java`, which creates and seeds its SQLite schema.

The Swing layer is gone from the model. What remains is the election state machine behind it.

- **The store** (`Db.Store`) holds four tables and one id counter:
  - the `users` table, keyed by username;
  - the `candidates` table, keyed by id;
  - the `settings` table, with its one `electionActive` row;
  - the `voted_users` set;
  - `lastId`, a fresh-id counter standing for the AUTOINCREMENT sequence of candidate ids (see "## Left out" for how it differs).
- **`Db.Init`** is `Db.init`: create-if-missing, then `INSERT OR IGNORE` of the demo rows.
- **The `db*` helpers** (`Persistence`) are each read as one pure function on the store. Most are one SQL statement, and `dbCastVote` is one transaction. `dbRemoveVoter` runs two separately committed DELETEs; the model applies them together as one update (`Persistence.RemoveVoter`). A key-constraint violation changes nothing.
- **Two small helpers** are modelled without rows of their own:
  - `requireAdmin` (EVotingSystemFeatures.java:708-714) is the predicate `Handlers.RequireAdmin`. It is the first check of every admin handler, and each handler's contract states the `AdminRequired` refusal.
  - `dbHasVoted` (EVotingSystemFeatures.java:871-877) is the predicate `Persistence.HasVoted`, membership in the voted set. It is the third check of `Handlers.OnCastVote` and the first of `Persistence.CastVote`, whose contracts state the `AlreadyVoted` refusal.
  - `dbUserExists` (EVotingSystemFeatures.java:748-754) is likewise `Persistence.UserExists`, membership in the users table, used by `Handlers.OnRegister`.
- **The button handlers** (`Handlers`) are pure functions. Each one takes:
  - the store;
  - the login session (`loggedInAdmin`, `loggedInVoter`);
  - the form input or list selection.

  Each one returns an outcome (`Done` or `Failed(error)`) and the next store. A refused handler leaves the store as it was.
- **`dbCastVote`** is one atomic function. It either commits the check, the increment and the voted mark together, or rolls back to the unchanged store.
- **`announceResults`** is modelled as a recursive scan with the same accumulator as the Java loop (`Tally.Scan`). It is proved equal to reference definitions (`MaxVotes`, `Tied`) of "largest tally" and "the rows at that tally".
- **`Properties`** relates several operations to each other:
  - the seeded state and the idempotence of `init`;
  - the store invariants every handler keeps;
  - tally consistency over any sequence of votes;
  - one vote per voter;
  - start/end as inverse operations;
  - verify as idempotent;
  - fresh candidate ids;
  - results as the arg-max.
- **`Scenarios`** holds concrete sequences of handler calls on the seeded database.

Files: `entities.dfy`, `db.dfy`, `persistence.dfy`, `tally.dfy`, `handlers.dfy`, `properties.dfy`, `scenarios.dfy`.

## Model

| member | source | states |
|---|---|---|
| Entities.NewUser | EVotingSystemFeatures.java:45-50 | A newly built user has the given name, display name and role. It is verified exactly when it is an admin, so a new voter starts unverified. |
| Entities.ParseBoolText | EVotingSystemFeatures.java:853-869 | A flag written with `Boolean.toString` reads back through `Boolean.parseBoolean` as the same flag. |
| Db.InsertCandidateOrIgnore | Db.java:30-33 | The name is in the table afterwards. A taken name leaves the store unchanged. A free name gets a new zero-vote row under the next sequence id. Existing rows are kept and the sequence still covers every id. |
| Db.SeedCandidates | Db.java:30-33 | Alice and Bob are present afterwards. Every earlier row survives unchanged. Users, settings and the voted set are untouched. |
| Db.InsertUserOrIgnore | Db.java:34-37 | Afterwards the username is present, and the key set grows by exactly that username. Every earlier user row is unchanged, so a taken username keeps its row. A free one gets the new row. Other tables are untouched. |
| Db.InsertOrIgnoreIdempotent | Db.java:34-38 | Repeating an INSERT OR IGNORE of a user or of a setting changes nothing. |
| Db.SeedUsers | Db.java:34-37 | voter1 and admin exist afterwards. Every earlier user row is unchanged. No other table moves. |
| Db.InsertSettingOrIgnore | Db.java:38 | Afterwards the key is present, and the key set grows by exactly that key. Every earlier setting keeps its value, so a present key is not overwritten. An absent key gets the seed value. Other tables are untouched. |
| Db.Init | Db.java:12-38 | Afterwards the seed users and the `electionActive` row exist and the seed candidate names are present. Every existing user, setting and candidate row survives unchanged. The voted set is unchanged and the sequence never goes back. |
| Persistence.GetUser | EVotingSystemFeatures.java:756-771 | There is a result exactly when the username exists, and it is the stored row. |
| Persistence.AddVoter | EVotingSystemFeatures.java:773-781 | A free username gets an unverified voter row. A taken one (primary-key violation) changes nothing. Other tables are untouched. |
| Persistence.VerifyVoter | EVotingSystemFeatures.java:783-789 | Only the verified flag of that user changes. A missing row is a no-op. No key is added or removed. |
| Persistence.RemoveVoter | EVotingSystemFeatures.java:791-800 | The username is gone from both the users table and the voted set. Nothing else changes. |
| Persistence.AddCandidate | EVotingSystemFeatures.java:826-833 | It succeeds exactly when no candidate has the name. On success the new row has id `lastId + 1` and zero votes, and nothing else changes. On failure it reports the duplicate and leaves the store unchanged. |
| Persistence.UpdateCandidate | EVotingSystemFeatures.java:835-843 | It fails exactly when the id exists and another row carries the name; the store is then unchanged. A missing id matches no row. Otherwise only that row's name and manifesto change, never its votes. |
| Persistence.RemoveCandidate | EVotingSystemFeatures.java:845-851 | Only the row with that id is deleted. Every other table is untouched. |
| Persistence.IsElectionActive | EVotingSystemFeatures.java:853-861 | An absent settings row reads as false. |
| Persistence.SetElectionActive | EVotingSystemFeatures.java:863-869 | Where the row exists, the flag afterwards reads as the value written. Where it is absent, nothing changes. Other settings and tables are untouched. |
| Persistence.CastVote | EVotingSystemFeatures.java:879-898 | The vote commits exactly when the voter has not voted and the id exists. On commit that candidate gains exactly one vote, the voter joins the voted set, and every other row and table is unchanged. On AlreadyVoted or CandidateNotFound it rolls back to the unchanged store. |
| Tally.LoadCandidates | EVotingSystemFeatures.java:815-824 | Every loaded row is a row of the table. |
| Tally.LoadCandidatesComplete | EVotingSystemFeatures.java:815-824 | On a valid store the list holds exactly the rows of the table, each once, in strictly ascending id order. It is empty exactly when the table is. |
| Tally.LoadCandidatesCover | EVotingSystemFeatures.java:815-824 | On a valid store every row of the table is loaded, and the list is in strictly ascending id order. |
| Tally.LoadCandidatesCount | EVotingSystemFeatures.java:815-824 | On a valid store the loaded list is exactly as long as the table, so no row is loaded twice. |
| Tally.MaxVotes | EVotingSystemFeatures.java:660-671 | The largest tally bounds every row and is reached by some row. It is -1 (the scan's start value) exactly for an empty list. |
| Tally.TiedMembers | EVotingSystemFeatures.java:660-671 | A row is among the tied rows exactly when it is in the list with that tally. |
| Tally.TiedAscending | EVotingSystemFeatures.java:660-671 | Filtering the tied rows keeps ascending id order. |
| Tally.Scan | EVotingSystemFeatures.java:660-671 | Resumed from any `maxVotes`/`winners`, the loop ends at the larger of `maxVotes` and the remaining maximum. Its winners are the earlier ones (if that maximum is still `maxVotes`) followed by the remaining rows at that maximum. |
| Handlers.OnAdminLogin | EVotingSystemFeatures.java:303-315 | It succeeds exactly for a case-insensitive "admin" with the exact password "admin". The admin then becomes a verified Administrator and the voter session is kept. A failure leaves the session unchanged. |
| Handlers.OnVoterLogin | EVotingSystemFeatures.java:317-335 | It succeeds exactly for a non-empty name of an existing, verified voter, which becomes the logged-in voter. An empty name gives MissingUsername. An unknown user or one who is not a voter gives NoSuchVoter. An existing but unverified voter gives NotVerified. A failure leaves the session unchanged. |
| Handlers.OnRegister | EVotingSystemFeatures.java:348-362 | It succeeds exactly for a non-empty username and display name with a free username. It then adds an unverified voter and changes nothing else. Otherwise it reports MissingField or UsernameExists and leaves the store unchanged. |
| Handlers.OnVerify | EVotingSystemFeatures.java:372-383 | It refuses without an admin or a selection. Otherwise only the selected user's verified flag is set and every other user and table is unchanged. |
| Handlers.OnRemoveVoter | EVotingSystemFeatures.java:385-396 | It refuses without an admin or a selection. Otherwise the user and their voted mark are removed and candidates and their tallies are unchanged. |
| Handlers.OnAddCandidate | EVotingSystemFeatures.java:429-441 | It checks in order: admin required, name required, then the duplicate name, which leaves the table unchanged. On success the candidate gets a fresh id above the sequence and zero votes. |
| Handlers.OnEditCandidate | EVotingSystemFeatures.java:443-461 | It checks in order: admin, selection, name. On success only the selected row's name and manifesto change. No tally, key or other table changes. |
| Handlers.OnRemoveCandidate | EVotingSystemFeatures.java:463-475 | It refuses without an admin or a selection. Otherwise exactly the selected row is deleted. |
| Handlers.OnStartElection | EVotingSystemFeatures.java:508-517 | It succeeds exactly for an admin while the election is inactive. Where the settings row exists, the election is active afterwards; without the row nothing changes. An active election is refused with AlreadyActive and no change. Only the settings row changes. |
| Handlers.OnEndElection | EVotingSystemFeatures.java:519-528 | It succeeds exactly for an admin while the election is active, and afterwards it is inactive. An inactive election is refused with NotActive and no change. Only the settings row changes. |
| Handlers.OnCastVote | EVotingSystemFeatures.java:571-603 | It refuses with no state change in order: no logged-in voter, inactive election, already voted, nothing selected. Once every check passes, its step is exactly the vote transaction. So an id that no longer resolves rolls back as CandidateNotFound. It succeeds exactly when the selected id exists. |
| Handlers.AnnounceResults | EVotingSystemFeatures.java:648-682 | It refuses during the election and with no candidates. Otherwise the reported count is the largest tally and the names are those of the rows at it, in load order. "Winner" is reported exactly when one row is at the top. |
| Properties.InitEmpty | Db.java:30-38 | `init` on an empty database gives exactly Alice and Bob at 0 votes, unverified voter1, verified admin, the election inactive and nobody voted. That state satisfies the schema invariants. |
| Properties.InitIdempotent | Db.java:12-38 | Running `init` a second time changes nothing. |
| Properties.InitKeepsRows | Db.java:12-38 | On a valid database, `init` keeps every row as it is, including votes, verification, the election flag and the voted set. The result is again valid. |
| Properties.ApplyKeepsInvariants | Db.java:14-28 | Every store handler keeps the schema invariants (keys, unique names, the settings row, ids within the sequence). None lowers the sequence. Tallies only grow, and only by voting, and new rows start at zero. |
| Properties.ApplyAllKeepsValid | Db.java:14-28 | Any sequence of handler calls keeps the store valid and the sequence monotone. |
| Properties.LogoutRevokesAdmin | EVotingSystemFeatures.java:708-714 | After admin logout, every admin-only button is refused with AdminRequired and the store is unchanged. |
| Properties.CastVoteTally | EVotingSystemFeatures.java:879-898 | A vote transaction keeps the store valid. It adds at most one voter, and the total tally grows by exactly the number of voters added. |
| Properties.CastAllTally | EVotingSystemFeatures.java:879-898 | Over any sequence of vote requests, the total tally grows by exactly the number of new voters. Only requesters become voters. |
| Properties.SameVoterVotesOnce | EVotingSystemFeatures.java:882-886 | However many requests one voter sends, the total grows by at most one, and by none if they had voted already. |
| Properties.SecondVoteRefused | EVotingSystemFeatures.java:580-583 | After a successful vote, the same session's next vote is refused as AlreadyVoted, for any candidate, with no change. |
| Properties.AdminActionsTally | EVotingSystemFeatures.java:348-528 | Registering, verifying, removing voters, adding or editing candidates, and starting or ending keep the total tally. Removing a candidate subtracts exactly that candidate's votes. |
| Properties.RemoveCandidateTally | EVotingSystemFeatures.java:463-475 | Removing the selected candidate lowers the total tally by exactly that candidate's votes. If nothing was removed, the total is unchanged. |
| Properties.AddCandidateTally | EVotingSystemFeatures.java:429-441 | Adding a candidate leaves the total tally unchanged, because the new row starts at zero. |
| Properties.EditCandidateTally | EVotingSystemFeatures.java:443-461 | Editing a candidate leaves the total tally unchanged. |
| Properties.StartEndPair | EVotingSystemFeatures.java:508-528 | From inactive, start succeeds and a second start is refused without change. End then succeeds and a second end is refused without change. |
| Properties.StartEndRoundTrip | EVotingSystemFeatures.java:508-528 | When the flag was stored as "false", start followed by end gives back exactly the original store. |
| Properties.VerifyIdempotent | EVotingSystemFeatures.java:372-383 | Verifying twice gives the same store as verifying once. |
| Properties.RegisterRemoveRoundTrip | EVotingSystemFeatures.java:348-396 | An admin removing a voter who was just registered (and had no voted mark) gives back exactly the store from before the registration. |
| Properties.EditRevert | EVotingSystemFeatures.java:443-461 | On a valid store, editing a candidate back to its old name and manifesto succeeds and gives back the original store: unique names keep the old name free. |
| Properties.LoginLogoutRoundTrip | EVotingSystemFeatures.java:273-335 | Logging out after an admin or voter login attempt gives the same session as logging out without it. |
| Properties.AddCandidateFreshId | Db.java:20 | A new candidate's id is above every id in use and its tally is zero. Removing it again restores the table. |
| Properties.RegisterVerifyVoteOnce | EVotingSystemFeatures.java:348-396 | Register, verify and log in lets a new voter vote exactly once: the tally rises by one and the second vote is refused. Removing the voter afterwards keeps the tallies. |
| Properties.RemovedVoterVotesAgain | EVotingSystemFeatures.java:791-800 | A voter whose vote is refused can vote again once an admin removes them, because their open session is never rechecked. |
| Properties.AnnounceAvailable | EVotingSystemFeatures.java:648-657 | On a valid store, results exist exactly when the election is closed and the candidates table is non-empty. |
| Properties.AnnounceCountIsMax | EVotingSystemFeatures.java:660-671 | The announced count is at least every candidate's tally, and some candidate has exactly that count. |
| Properties.AnnounceWinnersAtMax | EVotingSystemFeatures.java:660-671 | On a valid store, a row is among the reported winners exactly when it is a candidate with the announced count. |
| Properties.AnnounceWinnersOrdered | EVotingSystemFeatures.java:660-671 | On a valid store, the reported winners come in ascending id order, the order the rows are loaded in. |
| Properties.AnnounceReportShape | EVotingSystemFeatures.java:673-679 | The report names the winners' names, at least one. It is "Winner" exactly when there is one name and "Tie" otherwise. |
| Properties.AnnounceIsArgMax | EVotingSystemFeatures.java:648-682 | On a valid store, results exist exactly when the election is closed and there are candidates. The count bounds every tally and is reached. The winners are exactly the rows at that count, non-empty, in ascending id order. "Winner" means exactly one. |
| Scenarios.DoubleVoteScenario | EVotingSystemFeatures.java:571-603 | On the seeded database: admin logs in as "ADMIN", voter1 is refused until verified, and then votes for Bob. Bob has 1 and Alice 0. A second vote is refused and changes nothing. |
| Scenarios.TieScenario | EVotingSystemFeatures.java:648-682 | Ending an election with Alice and Bob at 3 votes each announces a tie between Alice and Bob at 3. |
| Scenarios.AnnounceEvenPair | EVotingSystemFeatures.java:660-679 | With exactly two rows at equal tallies on a closed store, the result is a tie of both names, in load order. |
| Scenarios.EarlyResultsScenario | EVotingSystemFeatures.java:649-652 | Results during a running election are refused. |
| Scenarios.RemovedCandidateScenario | EVotingSystemFeatures.java:888-891 | After a vote for Bob and Bob's removal, another vote for Bob's id rolls back as CandidateNotFound. The loaded list is then Alice alone. |

## Behaviour of the code worth knowing

These follow from the code as written, and the model keeps them:
- Registration is open to anyone: the "Register Voter" button has no `requireAdmin` check, unlike every other store-changing button except voting. `Handlers.OnRegister` has no admin check.
- A vote mark is not permanent. `dbRemoveVoter` also deletes the voter's `voted_users` row. The logged-in voter session is never rechecked against the store, so a removed voter who is still logged in can vote a second time (`Properties.RemovedVoterVotesAgain`). The one-vote guarantees (`SameVoterVotesOnce`, `CastAllTally`) are stated for vote sequences without removals in between, which is where they hold.
- Deleting a candidate deletes its votes: they drop out of every total (`Properties.RemoveCandidateTally`).
- `dbSetElectionActive` is an UPDATE. Without a settings row, start reports success but changes nothing, so the election never opens. `Valid` includes the row; `init` creates it.

## Left out

- Swing construction, layout, dialogs, the status bar and list/table refreshes (`build*`, `refresh*`, `updateRegVoterList`, `showInfo`/`showError`, `switchToTab`, `refreshAllUI`): presentation only.
- `dbLoadVoters`: it only feeds a list widget.
- JDBC connections, SQL strings and every `SQLException` catch path: the store is a value, so a driver failure has no counterpart. A swallowed constraint violation is modelled as "no state change".
- Trimming of form input: handlers take the already trimmed text.
- The list-index to id mapping (`candidateIds`) and the radio-button client property: a selection is modelled as `Option` of the id or username it resolves to.
- The message text of results and dialogs: results are the `Winner`/`Tie` value with names and count.
- Handlers.OnAddCandidate: on a duplicate name the code shows the swallowed SQL error and then still "Candidate added.". The model reports `Failed(DuplicateName)` and the unchanged store, which is the effect on the database.
- Handlers.OnEditCandidate: the same holds for an edit to a taken name, which the code reports as "Candidate updated.".
- Handlers.OnCastVote: when the selected id no longer resolves, `dbCastVote` rolls back and shows "Candidate not found.", but the handler then still shows "Vote cast for: <name>". The model reports the transaction's outcome, `Failed(CandidateNotFound)`, with the unchanged store.
- Entities.Candidate: ids and tallies are unbounded `nat`, not 32-bit `int`, so the model does not wrap at 2^31-1 votes.
- Entities.FoldCase: Java's `equalsIgnoreCase` is modelled only as far as it decides comparisons against "admin" and "true" (ASCII letters plus U+0130 and U+0131). That is exact for those keywords, but it is not general Unicode case folding.
- Db.Init: its candidate-preservation and seeded-name guarantees assume the counter is at least every id (`SequenceCovers`), which SQLite's sequence maintains. Ids are allocated as `lastId + 1` under that invariant.
- Db.InsertCandidateOrIgnore: `lastId` is an abstract fresh-id counter. An insert ignored on the UNIQUE(name) conflict does not use up an id in the model. SQLite may still advance its real `sqlite_sequence` entry for such an insert, so each `Db.init` on an existing database can skip ids there. `Properties.InitIdempotent` therefore states the equality of the four tables together with this counter, not of SQLite's sequence value. Only the ids of later candidates could differ; no guarantee about the rows depends on their exact value.
- Persistence.RemoveVoter: the two DELETEs of `dbRemoveVoter` run with auto-commit, so a failure between them could leave the `voted_users` row gone and the user still present. The model applies both together.
- Concurrency: the application is single-threaded, and each vote transaction is one atomic function. `CastAll` covers any serial order of transactions.
- The logout buttons are `Handlers.OnAdminLogout` / `OnVoterLogout`. They have no contract of their own; `Properties.LogoutRevokesAdmin` and `Properties.LoginLogoutRoundTrip` state what logging out means.
