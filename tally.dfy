/** Vote aggregation: `get_vote_count`, the option -> count map of one poll. */
module Tally {
  import opened Schema

  /** Number of votes in `votes` that name `option`. */
  function CountOf(votes: seq<Vote>, option: string): nat {
    if votes == [] then 0
    else CountOf(votes[..|votes| - 1], option) + (if votes[|votes| - 1].option == option then 1 else 0)
  }

  /** `count` holds, for every option that has votes in `votes`, the number of
      them, and holds no other option. */
  ghost predicate IsTally(count: map<string, nat>, votes: seq<Vote>) {
    && (forall o :: o in count <==> CountOf(votes, o) > 0)
    && (forall o :: o in count ==> count[o] == CountOf(votes, o))
  }

  /** Sum of the counts of a map. */
  ghost function Total(m: map<string, nat>): nat
    decreases |m|
  {
    if m == map[] then 0
    else
      var k :| k in m;
      assert |m - {k}| < |m| by { assert (m - {k}).Keys == m.Keys - {k}; }
      m[k] + Total(m - {k})
  }

  /** The sum does not depend on which key is taken out first. */
  lemma {:induction false} TotalRemove(m: map<string, nat>, key: string)
    requires key in m
    ensures Total(m) == m[key] + Total(m - {key})
    decreases |m|
  {
    var k :| k in m && Total(m) == m[k] + Total(m - {k});
    if k != key {
      assert (m - {k}).Keys == m.Keys - {k};
      assert (m - {key}).Keys == m.Keys - {key};
      TotalRemove(m - {k}, key);
      TotalRemove(m - {key}, k);
      assert m - {k} - {key} == m - {key} - {k};
    }
  }

  /** Counting one more vote for `option` adds one to the sum. */
  lemma TotalBump(m: map<string, nat>, option: string)
    ensures Total(m[option := (if option in m then m[option] else 0) + 1]) == Total(m) + 1
  {
    var m' := m[option := (if option in m then m[option] else 0) + 1];
    TotalRemove(m', option);
    if option in m {
      TotalRemove(m, option);
      assert m' - {option} == m - {option};
    } else {
      assert m' - {option} == m;
    }
  }

  /** `get_vote_count(poll_id)`: walks the poll's votes and counts each option.
      The map holds exactly the options that received votes, each with its
      number of votes, and its counts add up to the number of the poll's votes. */
  method GetVoteCount(votes: seq<Vote>, pollId: nat) returns (count: map<string, nat>)
    ensures IsTally(count, PollVotes(votes, pollId))
    ensures forall o :: o in count ==> count[o] >= 1
    ensures Total(count) == |PollVotes(votes, pollId)|
  {
    var pollVotes := PollVotes(votes, pollId);
    count := map[];
    var i := 0;
    while i < |pollVotes|
      invariant 0 <= i <= |pollVotes|
      invariant IsTally(count, pollVotes[..i])
      invariant Total(count) == i
    {
      var option := pollVotes[i].option;
      assert pollVotes[..i + 1][..i] == pollVotes[..i];
      TotalBump(count, option);
      count := count[option := (if option in count then count[option] else 0) + 1];
      i := i + 1;
    }
    assert pollVotes[..i] == pollVotes;
  }

  /** An option with a positive count was named by some vote. */
  lemma {:induction false} CountedWasCast(votes: seq<Vote>, option: string)
    requires CountOf(votes, option) > 0
    ensures exists i :: 0 <= i < |votes| && votes[i].option == option
  {
    var init := votes[..|votes| - 1];
    if votes[|votes| - 1].option != option {
      CountedWasCast(init, option);
      var i :| 0 <= i < |init| && init[i].option == option;
      assert votes[i] == init[i];
    }
  }

  /** When every vote names an offered option, so does every key of a poll's tally. */
  lemma TalliedOptionsOffered(db: Db, pollId: nat, count: map<string, nat>)
    requires VotesOffered(db) && pollId in db.polls
    requires IsTally(count, PollVotes(db.votes, pollId))
    ensures forall o :: o in count ==> o in ParseOptions(db.polls[pollId].options)
  {
    var pv := PollVotes(db.votes, pollId);
    forall o | o in count
      ensures o in ParseOptions(db.polls[pollId].options)
    {
      CountedWasCast(pv, o);
      var i :| 0 <= i < |pv| && pv[i].option == o;
      var j :| 0 <= j < |db.votes| && db.votes[j] == pv[i];
      assert Offers(db.polls[db.votes[j].pollId], db.votes[j].option);
    }
  }
}
