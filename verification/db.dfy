/** The persisted state of the application (Db.java): four tables and the
    key constraints of their schema, and `init`, which creates the schema if
    needed and seeds the demo rows with INSERT OR IGNORE. */
module Db {
  import opened Entities

  /** The one key of the settings table. */
  const ElectionKey := "electionActive"

  /** The database. `users` is keyed by its primary key `username`,
      `candidates` by its primary key `id`, `settings` by `key`, and `voted`
      is the `voted_users` table, whose only column is its primary key; a key
      can therefore appear at most once in each. `lastId` stands for the
      AUTOINCREMENT sequence of the candidates table: a fresh-id counter that
      never goes back, so a new row's id is above every id handed out. It
      advances only when a row is actually inserted. */
  datatype Store = Store(
    users: map<string, User>,
    candidates: map<nat, Candidate>,
    settings: map<string, string>,
    voted: set<string>,
    lastId: nat)

  /** A database file with no tables yet (or empty ones). */
  const Empty := Store(map[], map[], map[], {}, 0)

  /** The state `init` produces from an empty database. */
  const Seeded := Store(
    map["voter1" := User("voter1", "Voter One", Voter, false),
        "admin" := User("admin", "Administrator", Admin, true)],
    map[1 := Candidate(1, "Alice", "Transparency and Innovation", 0),
        2 := Candidate(2, "Bob", "Community and Growth", 0)],
    map[ElectionKey := "false"],
    {},
    2)

  /** Some candidate other than `except` carries `name`. */
  predicate NameTaken(candidates: map<nat, Candidate>, name: string, except: int)
  {
    exists id :: id in candidates && id != except && candidates[id].name == name
  }

  /** The AUTOINCREMENT sequence is at least every id in the table. SQLite
      hands out max(sequence, largest id) + 1; under this invariant that is
      `lastId + 1`, which is how the model allocates ids. */
  predicate SequenceCovers(s: Store)
  {
    forall id :: id in s.candidates ==> id <= s.lastId
  }

  /** UNIQUE(name) of the candidates table. */
  ghost predicate UniqueNames(candidates: map<nat, Candidate>)
  {
    forall i, j :: i in candidates && j in candidates && candidates[i].name == candidates[j].name ==> i == j
  }

  /** The invariants every reachable database satisfies: each record carries
      its own key, candidate ids lie in 1..lastId, names are unique, and the
      single settings row exists. */
  ghost predicate Valid(s: Store)
  {
    && (forall u :: u in s.users ==> s.users[u].username == u)
    && (forall id :: id in s.candidates ==> s.candidates[id].id == id && 1 <= id)
    && SequenceCovers(s)
    && UniqueNames(s.candidates)
    && ElectionKey in s.settings
  }

  /** The rows of `s` are all still in `r`, unchanged. */
  ghost predicate KeepsCandidates(s: Store, r: Store)
  {
    forall id :: id in s.candidates ==> id in r.candidates && r.candidates[id] == s.candidates[id]
  }

  /** INSERT OR IGNORE of a candidate with zero votes: ignored when the name
      is taken, otherwise the row gets the next AUTOINCREMENT id. */
  function InsertCandidateOrIgnore(s: Store, name: string, manifesto: string): (r: Store)
    ensures NameTaken(s.candidates, name, -1) ==> r == s
    ensures !NameTaken(s.candidates, name, -1) ==>
      r == s.(candidates := s.candidates[s.lastId + 1 := Candidate(s.lastId + 1, name, manifesto, 0)],
               lastId := s.lastId + 1)
    ensures NameTaken(r.candidates, name, -1)
    ensures SequenceCovers(s) ==> SequenceCovers(r) && KeepsCandidates(s, r)
  {
    if NameTaken(s.candidates, name, -1) then s
    else
      var id := s.lastId + 1;
      var r := s.(candidates := s.candidates[id := Candidate(id, name, manifesto, 0)], lastId := id);
      assert r.candidates[id].name == name;
      r
  }

  /** The two seeded candidates, Alice and Bob. */
  function SeedCandidates(s: Store): (r: Store)
    ensures r.users == s.users && r.settings == s.settings && r.voted == s.voted
    ensures r.lastId >= s.lastId
    ensures SequenceCovers(s) ==> SequenceCovers(r) && KeepsCandidates(s, r)
    ensures SequenceCovers(s) ==> NameTaken(r.candidates, "Alice", -1) && NameTaken(r.candidates, "Bob", -1)
  {
    var s1 := InsertCandidateOrIgnore(s, "Alice", "Transparency and Innovation");
    var r := InsertCandidateOrIgnore(s1, "Bob", "Community and Growth");
    assert SequenceCovers(s) ==> NameTaken(r.candidates, "Alice", -1) by {
      if SequenceCovers(s) {
        var a :| a in s1.candidates && s1.candidates[a].name == "Alice";
        assert a in r.candidates && r.candidates[a] == s1.candidates[a];
      }
    }
    r
  }

  /** INSERT OR IGNORE of a user: ignored when the username is taken. */
  function InsertUserOrIgnore(s: Store, u: User): (r: Store)
    ensures u.username in r.users
    ensures r.users.Keys == s.users.Keys + {u.username}
    ensures forall k :: k in s.users ==> r.users[k] == s.users[k]
    ensures u.username !in s.users ==> r.users[u.username] == u
    ensures r.candidates == s.candidates && r.settings == s.settings
    ensures r.voted == s.voted && r.lastId == s.lastId
  {
    if u.username in s.users then s else s.(users := s.users[u.username := u])
  }

  /** INSERT OR IGNORE of a setting: ignored when the key is present. */
  function InsertSettingOrIgnore(s: Store, key: string, value: string): (r: Store)
    ensures key in r.settings
    ensures r.settings.Keys == s.settings.Keys + {key}
    ensures forall k :: k in s.settings ==> r.settings[k] == s.settings[k]
    ensures key !in s.settings ==> r.settings[key] == value
    ensures r.users == s.users && r.candidates == s.candidates
    ensures r.voted == s.voted && r.lastId == s.lastId
  {
    if key in s.settings then s else s.(settings := s.settings[key := value])
  }

  /** The two seeded users: an unverified demo voter and the admin. */
  function SeedUsers(s: Store): (r: Store)
    ensures r.candidates == s.candidates && r.settings == s.settings
    ensures r.voted == s.voted && r.lastId == s.lastId
    ensures forall u :: u in s.users ==> u in r.users && r.users[u] == s.users[u]
    ensures "voter1" in r.users && "admin" in r.users
  {
    var s1 := InsertUserOrIgnore(s, User("voter1", "Voter One", Voter, false));
    InsertUserOrIgnore(s1, User("admin", "Administrator", Admin, true))
  }

  /** Repeating an INSERT OR IGNORE changes nothing: the second one finds
      its key taken. */
  lemma InsertOrIgnoreIdempotent(s: Store, u: User, key: string, value: string)
    ensures InsertUserOrIgnore(InsertUserOrIgnore(s, u), u) == InsertUserOrIgnore(s, u)
    ensures InsertSettingOrIgnore(InsertSettingOrIgnore(s, key, value), key, value)
         == InsertSettingOrIgnore(s, key, value)
  {
  }

  /** `Db.init`: the tables are created only if missing, so existing rows
      survive; every seed row is inserted only if its key is free. */
  function Init(s: Store): (r: Store)
    ensures r.voted == s.voted
    ensures r.lastId >= s.lastId
    ensures forall u :: u in s.users ==> u in r.users && r.users[u] == s.users[u]
    ensures SequenceCovers(s) ==> SequenceCovers(r)
    ensures SequenceCovers(s) ==> KeepsCandidates(s, r)
    ensures forall k :: k in s.settings ==> k in r.settings && r.settings[k] == s.settings[k]
    ensures "voter1" in r.users && "admin" in r.users && ElectionKey in r.settings
    ensures SequenceCovers(s) ==> NameTaken(r.candidates, "Alice", -1) && NameTaken(r.candidates, "Bob", -1)
  {
    var s2 := SeedCandidates(s);
    var s4 := SeedUsers(s2);
    InsertSettingOrIgnore(s4, ElectionKey, BoolText(false))
  }
}
