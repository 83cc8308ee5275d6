/** The three tables of the poll application (users, polls, votes), the
    predicates the handlers evaluate on them, and the integrity invariant
    that every handler keeps. */
module Schema {
  import opened Text

  datatype Option<T> = None | Some(value: T)

  /** The role strings the application assigns; the column itself holds any string. */
  const AdminRole: string := "admin"
  const StaffRole: string := "funcionario"
  const StudentRole: string := "estudante"

  /** The e-mail domain that marks a password as a student's self-registration. */
  const StudentSuffix: string := "@escola.pr.gov.br"

  /** A stored password credential. The salted hash itself is not modelled:
      a credential made from a password is checked against exactly that password. */
  datatype Credential = Hashed(secret: string)

  function HashPassword(password: string): Credential {
    Hashed(password)
  }

  predicate CheckPassword(stored: Credential, password: string) {
    stored == HashPassword(password)
  }

  lemma CheckPasswordExact(p: string, q: string)
    ensures CheckPassword(HashPassword(p), q) <==> p == q
  {
  }

  datatype User = User(username: string, credential: Credential, role: string)

  /** `options` is the raw comma-separated text the poll was created with;
      `expiration` is a point in time, compared with the clock as an integer. */
  datatype Poll = Poll(title: string, question: string, options: string,
                       expiration: Option<int>, active: bool, totalVotes: nat)

  datatype Vote = Vote(userId: nat, pollId: nat, option: string)

  /** The database: users and polls keyed by their primary key, votes in row
      order, and the next primary key each table will hand out. */
  datatype Db = Db(users: map<nat, User>, polls: map<nat, Poll>, votes: seq<Vote>,
                   nextUserId: nat, nextPollId: nat)

  /** A freshly created database (no default administrator). */
  const EmptyDb: Db := Db(map[], map[], [], 1, 1)

  /** Every way a handler can refuse a request. */
  datatype Error =
    | NotFound        // get_or_404 found no poll
    | PollClosed      // the poll is inactive or past its expiration
    | InvalidOption   // the option is not one of the poll's options
    | AlreadyVoted    // the user already has a vote on the poll
    | UsernameTaken   // a user with that username exists
    | BadCredentials  // no such user, or the password does not match
    | BadExpiration   // the expiration text did not parse

  datatype Result<T> = Ok(value: T) | Err(error: Error)

  /** What a handler answers and the database it leaves behind. */
  datatype Reply<T> = Reply(result: Result<T>, after: Db)

  // ---------------------------------------------------------------------------
  // Poll state as the three call sites test it

  /** The test `vote` applies: active, and not `expiration < now`. */
  predicate AcceptsVotes(p: Poll, now: int) {
    p.active && !(p.expiration.Some? && p.expiration.value < now)
  }

  /** The dashboard's filter: active, and no expiration or `expiration > now`. */
  predicate Listed(p: Poll, now: int) {
    p.active && (p.expiration.None? || p.expiration.value > now)
  }

  /** The admin listing's `is_expired` flag: an expiration earlier than now. */
  predicate IsExpired(p: Poll, now: int) {
    p.expiration.Some? && p.expiration.value < now
  }

  /** Every listed poll accepts votes, and a poll that accepts votes is listed
      except at the very instant of its expiration. */
  lemma ListedIsAcceptingExceptAtExpiry(p: Poll, now: int)
    ensures Listed(p, now) <==> AcceptsVotes(p, now) && p.expiration != Some(now)
  {
  }

  /** At `expiration == now` an active poll is hidden from the dashboard, is
      not flagged as expired, and still accepts votes. */
  lemma ExpiryInstant(p: Poll, now: int)
    requires p.active && p.expiration == Some(now)
    ensures AcceptsVotes(p, now) && !Listed(p, now) && !IsExpired(p, now)
  {
  }

  /** The admin flag and the vote-time test agree: a poll accepts votes exactly
      when it is active and not flagged as expired. */
  lemma AcceptsIffActiveAndNotExpired(p: Poll, now: int)
    ensures AcceptsVotes(p, now) <==> p.active && !IsExpired(p, now)
  {
  }

  // ---------------------------------------------------------------------------
  // Options and passwords

  /** `[opt.strip() for opt in options.split(',')]`: never empty, one entry
      per comma plus one, each trimmed, duplicates and empty entries kept. */
  function ParseOptions(raw: string): (r: seq<string>)
    ensures |r| == Occurrences(raw, ',') + 1
    ensures forall i :: 0 <= i < |r| ==> Trimmed(r[i]) && ',' !in r[i]
  {
    var pieces := Split(raw, ',');
    var r := seq(|pieces|, i requires 0 <= i < |pieces| => Strip(pieces[i]));
    assert forall i :: 0 <= i < |r| ==> ',' !in r[i] by {
      forall i | 0 <= i < |r|
        ensures ',' !in r[i]
      {
        StripWithin(pieces[i], ',');
      }
    }
    r
  }

  /** Parsing gives back exactly the trimmed, comma-free options a text was
      joined from, so it neither merges duplicates ("Red, Blue, Red" offers
      "Red" twice) nor drops empty options ("a,,b" offers "" too). */
  lemma ParseJoin(parts: seq<string>)
    requires |parts| > 0
    requires forall i :: 0 <= i < |parts| ==> Trimmed(parts[i]) && ',' !in parts[i]
    ensures ParseOptions(Join(parts, ',')) == parts
  {
    SplitJoin(parts, ',');
    forall i | 0 <= i < |parts|
      ensures Strip(parts[i]) == parts[i]
    {
      StripTrimmed(parts[i]);
    }
  }

  /** Blanks around the commas do not matter: parsing trims each piece. */
  lemma ParseTrimsPieces(parts: seq<string>)
    requires |parts| > 0
    requires forall i :: 0 <= i < |parts| ==> ',' !in parts[i]
    ensures |ParseOptions(Join(parts, ','))| == |parts|
    ensures forall i :: 0 <= i < |parts| ==> ParseOptions(Join(parts, ','))[i] == Strip(parts[i])
  {
    SplitJoin(parts, ',');
  }

  /** A choice is among the parsed options exactly when, trimmed, it equals
      some trimmed piece of the comma-split text. */
  lemma OfferedOption(raw: string, choice: string)
    ensures Strip(choice) in ParseOptions(raw)
        <==> exists i :: 0 <= i < |Split(raw, ',')| && Strip(Split(raw, ',')[i]) == Strip(choice)
  {
    var pieces := Split(raw, ',');
    var options := ParseOptions(raw);
    assert forall i :: 0 <= i < |pieces| ==> options[i] == Strip(pieces[i]);
  }

  /** An options text with no characters at all still offers one option, the empty one. */
  lemma ParseEmptyText()
    ensures ParseOptions("") == [""]
  {
    assert Split("", ',') == [""];
  }

  /** The login form's student test: the password contains '@' and ends with the school domain. */
  predicate IsStudentPassword(password: string) {
    '@' in password && EndsWith(password, StudentSuffix)
  }

  /** The '@' test is implied by the suffix test. */
  lemma StudentSuffixHasAt(password: string)
    ensures IsStudentPassword(password) <==> EndsWith(password, StudentSuffix)
  {
    if EndsWith(password, StudentSuffix) {
      assert password[|password| - |StudentSuffix|] == StudentSuffix[0] == '@';
    }
  }

  // ---------------------------------------------------------------------------
  // Queries

  /** `User.query.filter_by(username=...).first()` is not None. */
  predicate HasUsername(users: map<nat, User>, name: string) {
    exists id :: id in users && users[id].username == name
  }

  /** The id of a user with that username, if there is one. */
  ghost function FindUser(users: map<nat, User>, name: string): (r: Option<nat>)
    ensures r.Some? <==> HasUsername(users, name)
    ensures r.Some? ==> r.value in users && users[r.value].username == name
  {
    if HasUsername(users, name) then
      var id :| id in users && users[id].username == name; Some(id)
    else None
  }

  /** `Vote.query.filter_by(poll_id=...).all()`: the poll's votes in row order. */
  function PollVotes(votes: seq<Vote>, pollId: nat): (r: seq<Vote>)
    ensures |r| <= |votes|
    ensures forall i :: 0 <= i < |r| ==> r[i].pollId == pollId && r[i] in votes
    ensures forall v :: v in votes && v.pollId == pollId ==> v in r
  {
    if votes == [] then []
    else
      var last := votes[|votes| - 1];
      var init := votes[..|votes| - 1];
      assert votes == init + [last];
      PollVotes(init, pollId) + (if last.pollId == pollId then [last] else [])
  }

  /** The vote rows left after the poll's cascade deletion. */
  function DropPollVotes(votes: seq<Vote>, pollId: nat): (r: seq<Vote>)
    ensures |r| <= |votes|
    ensures forall i :: 0 <= i < |r| ==> r[i].pollId != pollId && r[i] in votes
    ensures forall v :: v in votes && v.pollId != pollId ==> v in r
  {
    if votes == [] then []
    else
      var last := votes[|votes| - 1];
      var init := votes[..|votes| - 1];
      assert votes == init + [last];
      DropPollVotes(init, pollId) + (if last.pollId != pollId then [last] else [])
  }

  /** The votes of one user on one poll. */
  function Ballots(votes: seq<Vote>, userId: nat, pollId: nat): (r: seq<Vote>)
    ensures forall i :: 0 <= i < |r| ==> r[i].userId == userId && r[i].pollId == pollId && r[i] in votes
    ensures r == [] <==> !HasVoted(votes, userId, pollId)
  {
    if votes == [] then []
    else
      var last := votes[|votes| - 1];
      var init := votes[..|votes| - 1];
      assert forall i :: 0 <= i < |init| ==> init[i] == votes[i];
      Ballots(init, userId, pollId)
        + (if last.userId == userId && last.pollId == pollId then [last] else [])
  }

  /** `Vote.query.filter_by(user_id=..., poll_id=...).first()` is not None. */
  predicate HasVoted(votes: seq<Vote>, userId: nat, pollId: nat) {
    exists i :: 0 <= i < |votes| && votes[i].userId == userId && votes[i].pollId == pollId
  }

  // ---------------------------------------------------------------------------
  // The integrity invariant

  /** Usernames are unique (the column is declared unique). */
  predicate UniqueUsernames(users: map<nat, User>) {
    forall a, b :: a in users && b in users && a != b ==> users[a].username != users[b].username
  }

  /** At most one vote per (user, poll). */
  predicate OneVotePerUserPoll(votes: seq<Vote>) {
    forall i, j :: 0 <= i < j < |votes| ==>
      votes[i].userId != votes[j].userId || votes[i].pollId != votes[j].pollId
  }

  /** Every vote belongs to an existing poll. */
  predicate NoOrphanVotes(db: Db) {
    forall i :: 0 <= i < |db.votes| ==> db.votes[i].pollId in db.polls
  }

  /** Each poll's cached `total_votes` is the number of its vote rows. */
  predicate CountersMatch(db: Db) {
    forall id :: id in db.polls ==> db.polls[id].totalVotes == |PollVotes(db.votes, id)|
  }

  /** The poll lists `option` among its parsed options. */
  predicate Offers(poll: Poll, option: string) {
    option in ParseOptions(poll.options)
  }

  /** Every vote names one of the options its poll offers. */
  predicate AllOffered(votes: seq<Vote>, polls: map<nat, Poll>) {
    forall i {:trigger Offers(polls[votes[i].pollId], votes[i].option)} ::
      0 <= i < |votes| && votes[i].pollId in polls ==> Offers(polls[votes[i].pollId], votes[i].option)
  }

  predicate VotesOffered(db: Db) {
    AllOffered(db.votes, db.polls)
  }

  /** Primary keys are positive and below the next key to be issued. */
  predicate KeysIssued(db: Db) {
    && 0 < db.nextUserId && 0 < db.nextPollId
    && (forall id :: id in db.users ==> 0 < id < db.nextUserId)
    && (forall id :: id in db.polls ==> 0 < id < db.nextPollId)
  }

  predicate Inv(db: Db) {
    && KeysIssued(db)
    && UniqueUsernames(db.users)
    && OneVotePerUserPoll(db.votes)
    && NoOrphanVotes(db)
    && CountersMatch(db)
  }

  lemma EmptyDbInv()
    ensures Inv(EmptyDb)
  {
  }

  // ---------------------------------------------------------------------------
  // Lemmas about the queries

  lemma PollVotesSnoc(votes: seq<Vote>, v: Vote, pollId: nat)
    ensures PollVotes(votes + [v], pollId)
         == PollVotes(votes, pollId) + (if v.pollId == pollId then [v] else [])
  {
    assert (votes + [v])[..|votes|] == votes;
  }

  lemma DropPollVotesSnoc(votes: seq<Vote>, v: Vote, pollId: nat)
    ensures DropPollVotes(votes + [v], pollId)
         == DropPollVotes(votes, pollId) + (if v.pollId != pollId then [v] else [])
  {
    assert (votes + [v])[..|votes|] == votes;
  }

  /** A poll no vote refers to has no votes. */
  lemma PollVotesNone(votes: seq<Vote>, pollId: nat)
    requires forall i :: 0 <= i < |votes| ==> votes[i].pollId != pollId
    ensures PollVotes(votes, pollId) == []
  {
  }

  /** The cascade deletion leaves the votes of every other poll as they were. */
  lemma {:induction false} DropKeepsOtherPolls(votes: seq<Vote>, pollId: nat, other: nat)
    requires other != pollId
    ensures PollVotes(DropPollVotes(votes, pollId), other) == PollVotes(votes, other)
  {
    if votes != [] {
      var last := votes[|votes| - 1];
      var init := votes[..|votes| - 1];
      assert votes == init + [last];
      DropKeepsOtherPolls(init, pollId, other);
      DropPollVotesSnoc(init, last, pollId);
      PollVotesSnoc(init, last, other);
      if last.pollId != pollId {
        PollVotesSnoc(DropPollVotes(init, pollId), last, other);
      } else {
        assert DropPollVotes(init, pollId) + [] == DropPollVotes(init, pollId);
      }
    }
  }

  lemma OneVoteSnoc(votes: seq<Vote>, v: Vote)
    requires OneVotePerUserPoll(votes) && !HasVoted(votes, v.userId, v.pollId)
    ensures OneVotePerUserPoll(votes + [v])
  {
    var s := votes + [v];
    assert forall i :: 0 <= i < |votes| ==> s[i] == votes[i];
  }

  lemma {:induction false} DropKeepsOneVote(votes: seq<Vote>, pollId: nat)
    requires OneVotePerUserPoll(votes)
    ensures OneVotePerUserPoll(DropPollVotes(votes, pollId))
  {
    if votes != [] {
      var last := votes[|votes| - 1];
      var init := votes[..|votes| - 1];
      assert votes == init + [last];
      assert OneVotePerUserPoll(init) by {
        forall i, j | 0 <= i < j < |init|
          ensures init[i].userId != init[j].userId || init[i].pollId != init[j].pollId
        {
          assert init[i] == votes[i] && init[j] == votes[j];
        }
      }
      DropKeepsOneVote(init, pollId);
      DropPollVotesSnoc(init, last, pollId);
      var kept := DropPollVotes(init, pollId);
      if last.pollId != pollId {
        assert !HasVoted(kept, last.userId, last.pollId);
        OneVoteSnoc(kept, last);
      } else {
        assert kept + [] == kept;
      }
    }
  }

  /** The invariant's pairwise form says what it means for one user and one
      poll: there is never more than one such vote. */
  lemma {:induction false} AtMostOneBallot(votes: seq<Vote>, userId: nat, pollId: nat)
    requires OneVotePerUserPoll(votes)
    ensures |Ballots(votes, userId, pollId)| <= 1
  {
    if votes != [] {
      var last := votes[|votes| - 1];
      var init := votes[..|votes| - 1];
      assert OneVotePerUserPoll(init) by {
        forall i, j | 0 <= i < j < |init|
          ensures init[i].userId != init[j].userId || init[i].pollId != init[j].pollId
        {
          assert init[i] == votes[i] && init[j] == votes[j];
        }
      }
      AtMostOneBallot(init, userId, pollId);
      var earlier := Ballots(init, userId, pollId);
      if last.userId == userId && last.pollId == pollId {
        LastVoteIsFirstOfItsKind(votes);
      }
    }
  }

  /** Under the invariant, the last vote's (user, poll) pair occurs nowhere before it. */
  lemma LastVoteIsFirstOfItsKind(votes: seq<Vote>)
    requires OneVotePerUserPoll(votes) && votes != []
    ensures !HasVoted(votes[..|votes| - 1], votes[|votes| - 1].userId, votes[|votes| - 1].pollId)
  {
    var init := votes[..|votes| - 1];
    assert forall i :: 0 <= i < |init| ==> init[i] == votes[i];
  }
}
