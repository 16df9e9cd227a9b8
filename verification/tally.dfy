/** Reading the candidates back: `dbLoadCandidates` (all rows in id order),
    the total of all tallies, and the max-and-ties scan of
    `announceResults` together with the reference definitions it is proved
    against. */
module Tally {
  import opened Entities
  import opened Db

  /** The keys of `candidates` in `lo..hi-1`, ascending. */
  function IdsFrom(candidates: map<nat, Candidate>, lo: nat, hi: nat): (r: seq<nat>)
    ensures forall i :: 0 <= i < |r| ==> r[i] in candidates && lo <= r[i] < hi
    ensures forall i, j :: 0 <= i < j < |r| ==> r[i] < r[j]
    ensures forall id :: id in candidates && lo <= id < hi ==> id in r
    decreases hi - lo
  {
    if lo >= hi then []
    else if lo in candidates then [lo] + IdsFrom(candidates, lo + 1, hi)
    else IdsFrom(candidates, lo + 1, hi)
  }

  /** Ids of the rows strictly ascending. */
  predicate Ascending(cs: seq<Candidate>)
  {
    forall i, j :: 0 <= i < j < |cs| ==> cs[i].id < cs[j].id
  }

  /** `dbLoadCandidates`: SELECT ... ORDER BY id, read as a scan of the ids
      up to the AUTOINCREMENT sequence, which no row exceeds. */
  function LoadCandidates(s: Store): (r: seq<Candidate>)
    ensures forall i :: 0 <= i < |r| ==> r[i] in s.candidates.Values
  {
    var ids := IdsFrom(s.candidates, 0, s.lastId + 1);
    seq(|ids|, i requires 0 <= i < |ids| => s.candidates[ids[i]])
  }

  /** On a valid store the loaded list holds every row exactly once, in
      ascending id order. */
  lemma LoadCandidatesComplete(s: Store)
    requires Valid(s)
    ensures forall c :: c in LoadCandidates(s) <==> c in s.candidates.Values
    ensures Ascending(LoadCandidates(s))
    ensures |LoadCandidates(s)| == |s.candidates|
    ensures LoadCandidates(s) == [] <==> s.candidates == map[]
  {
    LoadCandidatesCover(s);
    LoadCandidatesCount(s);
  }

  /** Every row of the table is loaded, and the rows come in ascending id
      order. */
  lemma LoadCandidatesCover(s: Store)
    requires Valid(s)
    ensures forall c :: c in s.candidates.Values ==> c in LoadCandidates(s)
    ensures Ascending(LoadCandidates(s))
  {
    var ids := IdsFrom(s.candidates, 0, s.lastId + 1);
    var r := LoadCandidates(s);
    assert forall i :: 0 <= i < |r| ==> r[i] == s.candidates[ids[i]];
    forall c | c in s.candidates.Values
      ensures c in r
    {
      var id :| id in s.candidates && s.candidates[id] == c;
      var i :| 0 <= i < |ids| && ids[i] == id;
      assert r[i] == c;
    }
  }

  /** The loaded list is as long as the table. */
  lemma LoadCandidatesCount(s: Store)
    requires Valid(s)
    ensures |LoadCandidates(s)| == |s.candidates|
  {
    var ids := IdsFrom(s.candidates, 0, s.lastId + 1);
    IdsCoverKeys(s.candidates, ids, s.lastId + 1);
  }

  /** An ascending list of ids meeting every key below `hi` of a map whose
      keys all lie below `hi` is as long as the map. */
  lemma IdsCoverKeys(candidates: map<nat, Candidate>, ids: seq<nat>, hi: nat)
    requires forall i :: 0 <= i < |ids| ==> ids[i] in candidates
    requires forall i, j :: 0 <= i < j < |ids| ==> ids[i] < ids[j]
    requires forall id :: id in candidates ==> id in ids
    ensures |ids| == |candidates|
  {
    var keys := set i | 0 <= i < |ids| :: ids[i];
    assert keys == candidates.Keys;
    DistinctCount(ids);
  }

  /** A strictly ascending sequence has as many distinct elements as entries. */
  lemma {:induction false} DistinctCount(ids: seq<nat>)
    requires forall i, j :: 0 <= i < j < |ids| ==> ids[i] < ids[j]
    ensures |set i | 0 <= i < |ids| :: ids[i]| == |ids|
  {
    if ids != [] {
      var rest := ids[1..];
      DistinctCount(rest);
      var front := set i | 0 <= i < |ids| :: ids[i];
      var back := set i | 0 <= i < |rest| :: rest[i];
      assert front == {ids[0]} + back by {
        forall x | x in front ensures x in {ids[0]} + back {
          var i :| 0 <= i < |ids| && ids[i] == x;
          if i > 0 { assert rest[i - 1] == x; }
        }
      }
      assert ids[0] !in back;
    }
  }

  /** Sum of the tallies of the rows with ids in `lo..hi-1`. */
  function VotesFrom(candidates: map<nat, Candidate>, lo: nat, hi: nat): nat
    decreases hi - lo
  {
    if lo >= hi then 0
    else (if lo in candidates then candidates[lo].votes else 0) + VotesFrom(candidates, lo + 1, hi)
  }

  /** Sum of all tallies of the store. */
  function TotalVotes(s: Store): nat
  {
    VotesFrom(s.candidates, 0, s.lastId + 1)
  }

  /** Adding one vote to row `id` adds one to the sum of every range holding
      `id` and nothing to the others. */
  lemma {:induction false} VotesFromBump(candidates: map<nat, Candidate>, id: nat, lo: nat, hi: nat)
    requires id in candidates
    ensures VotesFrom(candidates[id := candidates[id].(votes := candidates[id].votes + 1)], lo, hi)
         == VotesFrom(candidates, lo, hi) + (if lo <= id < hi then 1 else 0)
    decreases hi - lo
  {
    if lo < hi {
      VotesFromBump(candidates, id, lo + 1, hi);
    }
  }

  /** Two tables with the same ids and the same tally per id have the same sum. */
  lemma {:induction false} VotesFromSameTallies(a: map<nat, Candidate>, b: map<nat, Candidate>, lo: nat, hi: nat)
    requires a.Keys == b.Keys
    requires forall id :: id in a ==> a[id].votes == b[id].votes
    ensures VotesFrom(a, lo, hi) == VotesFrom(b, lo, hi)
    decreases hi - lo
  {
    if lo < hi {
      VotesFromSameTallies(a, b, lo + 1, hi);
    }
  }

  /** Deleting row `id` removes exactly its tally from every range holding it. */
  lemma {:induction false} VotesFromRemove(candidates: map<nat, Candidate>, id: nat, lo: nat, hi: nat)
    requires id in candidates
    ensures VotesFrom(candidates - {id}, lo, hi) + (if lo <= id < hi then candidates[id].votes else 0)
         == VotesFrom(candidates, lo, hi)
    decreases hi - lo
  {
    if lo < hi {
      VotesFromRemove(candidates, id, lo + 1, hi);
    }
  }

  /** Rows at or above `hi` do not contribute; extending the range over ids
      with no row adds nothing. */
  lemma {:induction false} VotesFromExtend(candidates: map<nat, Candidate>, lo: nat, hi: nat, hi': nat)
    requires hi <= hi'
    requires forall id :: id in candidates ==> id < hi
    ensures VotesFrom(candidates, lo, hi) == VotesFrom(candidates, lo, hi')
    decreases hi' - lo
  {
    if lo < hi' {
      VotesFromExtend(candidates, lo + 1, hi, hi');
    }
  }

  // ---------------------------------------------------------------------------
  // Results: the reference definitions

  function Max(a: int, b: int): int
  {
    if a >= b then a else b
  }

  /** The largest tally in `cs`, or -1 (the scan's starting value) for none. */
  function MaxVotes(cs: seq<Candidate>): (m: int)
    ensures forall i :: 0 <= i < |cs| ==> cs[i].votes <= m
    ensures cs == [] <==> m == -1
    ensures cs != [] ==> exists i :: 0 <= i < |cs| && cs[i].votes == m
  {
    if cs == [] then -1
    else
      var m := Max(cs[0].votes, MaxVotes(cs[1..]));
      assert forall i :: 1 <= i < |cs| ==> cs[i] == cs[1..][i - 1];
      m
  }

  /** The rows of `cs` whose tally equals `m`, in their order in `cs`. */
  function Tied(cs: seq<Candidate>, m: int): seq<Candidate>
  {
    if cs == [] then []
    else (if cs[0].votes == m then [cs[0]] else []) + Tied(cs[1..], m)
  }

  /** A row is among the tied ones exactly when it is in `cs` with tally `m`. */
  lemma {:induction false} TiedMembers(cs: seq<Candidate>, m: int)
    ensures forall c :: c in Tied(cs, m) <==> c in cs && c.votes == m
  {
    if cs != [] {
      TiedMembers(cs[1..], m);
      assert forall c :: c in cs <==> c == cs[0] || c in cs[1..];
    }
  }

  /** Filtering keeps the id order. */
  lemma {:induction false} TiedAscending(cs: seq<Candidate>, m: int)
    requires Ascending(cs)
    ensures Ascending(Tied(cs, m))
  {
    if cs != [] {
      var rest := Tied(cs[1..], m);
      assert Ascending(cs[1..]);
      TiedAscending(cs[1..], m);
      TiedMembers(cs[1..], m);
      forall c | c in rest ensures cs[0].id < c.id {
        var k :| 0 <= k < |cs[1..]| && cs[1..][k] == c;
        assert cs[k + 1] == c;
      }
      var r := Tied(cs, m);
      if cs[0].votes == m {
        assert r == [cs[0]] + rest;
        forall i, j | 0 <= i < j < |r| ensures r[i].id < r[j].id {
          if i == 0 { assert r[j] == rest[j - 1] && r[j] in rest; }
          else { assert r[i] == rest[i - 1] && r[j] == rest[j - 1]; }
        }
      } else {
        assert r == rest;
      }
    }
  }

  /** The names of a list of rows, in order. */
  function Names(cs: seq<Candidate>): (r: seq<string>)
    ensures |r| == |cs| && forall i :: 0 <= i < |cs| ==> r[i] == cs[i].name
  {
    if cs == [] then [] else [cs[0].name] + Names(cs[1..])
  }

  // ---------------------------------------------------------------------------
  // Results: the scan as `announceResults` runs it

  /** The loop of `announceResults` from the current position on, with
      `maxVotes` and `winners` as it has left them so far: a strictly higher
      tally restarts the winners with that row, an equal tally appends it.
      From any starting point the scan ends at the larger of `maxVotes` and
      the remaining maximum; the earlier winners survive exactly when that
      maximum is still `maxVotes`, followed by the remaining rows tied at it. */
  function Scan(cs: seq<Candidate>, maxVotes: int, winners: seq<Candidate>): (r: (int, seq<Candidate>))
    requires maxVotes >= -1
    ensures r.0 == Max(maxVotes, MaxVotes(cs))
    ensures r.1 == (if r.0 == maxVotes then winners else []) + Tied(cs, r.0)
  {
    if cs == [] then (maxVotes, winners)
    else
      var c, rest := cs[0], cs[1..];
      assert MaxVotes(cs) == Max(c.votes, MaxVotes(rest));
      if c.votes > maxVotes then
        var r := Scan(rest, c.votes, [c]);
        assert r.0 > maxVotes;
        assert Tied(cs, r.0) == (if c.votes == r.0 then [c] else []) + Tied(rest, r.0);
        r
      else if c.votes == maxVotes then
        var r := Scan(rest, maxVotes, winners + [c]);
        assert r.0 == Max(maxVotes, MaxVotes(cs));
        assert Tied(cs, r.0) == (if c.votes == r.0 then [c] else []) + Tied(rest, r.0);
        assert r.0 == maxVotes ==> r.1 == winners + Tied(cs, r.0) by {
          if r.0 == maxVotes {
            assert r.1 == (winners + [c]) + Tied(rest, r.0);
          }
        }
        r
      else
        var r := Scan(rest, maxVotes, winners);
        assert r.0 == Max(maxVotes, MaxVotes(cs));
        assert Tied(cs, r.0) == (if c.votes == r.0 then [c] else []) + Tied(rest, r.0);
        r
  }

  /** The outcome `announceResults` reports: one winner, or a tie. */
  datatype Announcement = Winner(name: string, votes: int) | Tie(names: seq<string>, votes: int)

  function WinnerNames(a: Announcement): seq<string>
  {
    match a
    case Winner(name, _) => [name]
    case Tie(names, _) => names
  }
}
