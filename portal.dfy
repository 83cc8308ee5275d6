/** The application's three tables as the fields of one object, and its
    request handlers as methods that update them in place. Every state
    changing method is proved to do exactly what the step function of the
    same name in `Handlers` does, and to keep the object valid; the read-only
    pages are proved against the queries of `Schema` and `Tally`. */
module Enquete {
  import opened Text
  import opened Schema
  import opened Tally
  import opened Handlers

  /** One poll on the dashboard, with its tally. */
  datatype Listing = Listing(poll: Poll, voteCount: map<string, nat>)

  /** What the results page shows about one poll. */
  datatype ResultsPage = ResultsPage(poll: Poll, options: seq<string>, voteCount: map<string, nat>, totalVotes: nat)

  class Portal {
    var users: map<nat, User>
    var polls: map<nat, Poll>
    var votes: seq<Vote>
    var nextUserId: nat
    var nextPollId: nat

    /** The tables as one value. */
    function State(): Db
      reads this
    {
      Db(users, polls, votes, nextUserId, nextPollId)
    }

    /** The integrity invariant, and every vote names an option of its poll. */
    ghost predicate Valid()
      reads this
    {
      Inv(State()) && VotesOffered(State())
    }

    /** Empty tables; the first row of each gets id 1. */
    constructor ()
      ensures State() == EmptyDb
      ensures Valid()
    {
      users := map[];
      polls := map[];
      votes := [];
      nextUserId := 1;
      nextPollId := 1;
      new;
      EmptyDbInv();
    }

    // -------------------------------------------------------------------------
    // Queries

    /** The position of the first vote of `userId` on `pollId`, if any. */
    method FirstBallot(userId: nat, pollId: nat) returns (found: Option<nat>)
      ensures found.Some? ==>
        && found.value < |votes|
        && votes[found.value].userId == userId && votes[found.value].pollId == pollId
        && (forall k :: 0 <= k < found.value ==> votes[k].userId != userId || votes[k].pollId != pollId)
      ensures found.None? <==> !HasVoted(votes, userId, pollId)
    {
      var i := 0;
      while i < |votes|
        invariant 0 <= i <= |votes|
        invariant forall k :: 0 <= k < i ==> votes[k].userId != userId || votes[k].pollId != pollId
      {
        if votes[i].userId == userId && votes[i].pollId == pollId {
          return Some(i);
        }
        i := i + 1;
      }
      return None;
    }

    /** `dashboard`: every active poll that has no expiration or expires
        after `now`, each with the tally of its votes. */
    method Dashboard(now: int) returns (listed: map<nat, Listing>)
      requires Valid()
      ensures listed.Keys == set id | id in polls && Listed(polls[id], now)
      ensures forall id :: id in listed ==>
        && listed[id].poll == polls[id]
        && IsTally(listed[id].voteCount, PollVotes(votes, id))
        && Total(listed[id].voteCount) == polls[id].totalVotes
      ensures forall id :: id in listed ==> AcceptsVotes(polls[id], now)
    {
      listed := map[];
      var pending := polls.Keys;
      while pending != {}
        invariant pending <= polls.Keys
        invariant listed.Keys == set id | id in polls && id !in pending && Listed(polls[id], now)
        invariant forall id :: id in listed ==>
          && listed[id].poll == polls[id]
          && IsTally(listed[id].voteCount, PollVotes(votes, id))
          && Total(listed[id].voteCount) == polls[id].totalVotes
        decreases pending
      {
        var id :| id in pending;
        var poll := polls[id];
        if Listed(poll, now) {
          var count := GetVoteCount(votes, id);
          listed := listed[id := Listing(poll, count)];
        }
        pending := pending - {id};
      }
      forall id | id in listed
        ensures AcceptsVotes(polls[id], now)
      {
        ListedIsAcceptingExceptAtExpiry(polls[id], now);
      }
    }

    /** `admin_polls`: every poll, flagged when its expiration is before `now`;
        a flagged poll refuses votes, an unflagged active one accepts them. */
    method AdminPolls(now: int) returns (expired: map<nat, bool>)
      ensures expired.Keys == polls.Keys
      ensures forall id :: id in expired ==> (expired[id] <==> IsExpired(polls[id], now))
      ensures forall id :: id in expired ==> (expired[id] ==> !AcceptsVotes(polls[id], now))
      ensures forall id :: id in expired ==> (!expired[id] && polls[id].active ==> AcceptsVotes(polls[id], now))
    {
      expired := map[];
      var pending := polls.Keys;
      while pending != {}
        invariant pending <= polls.Keys
        invariant expired.Keys == polls.Keys - pending
        invariant forall id :: id in expired ==> (expired[id] <==> IsExpired(polls[id], now))
        decreases pending
      {
        var id :| id in pending;
        var poll := polls[id];
        expired := expired[id := poll.expiration.Some? && poll.expiration.value < now];
        pending := pending - {id};
      }
    }

    /** `results`: the poll, its parsed options, its tally and its cached
        total; the tally adds up to the total and counts only offered options. */
    method Results(pollId: nat) returns (r: Result<ResultsPage>)
      requires Valid()
      ensures r.Err? <==> pollId !in polls
      ensures r.Err? ==> r.error == NotFound
      ensures r.Ok? ==>
        && r.value.poll == polls[pollId]
        && r.value.options == ParseOptions(polls[pollId].options)
        && IsTally(r.value.voteCount, PollVotes(votes, pollId))
        && r.value.totalVotes == polls[pollId].totalVotes
        && Total(r.value.voteCount) == r.value.totalVotes
        && (forall o :: o in r.value.voteCount ==> o in r.value.options)
    {
      if pollId !in polls {
        return Err(NotFound);
      }
      var poll := polls[pollId];
      var voteCount := GetVoteCount(votes, pollId);
      var options := ParseOptions(poll.options);
      TalliedOptionsOffered(State(), pollId, voteCount);
      return Ok(ResultsPage(poll, options, voteCount, poll.totalVotes));
    }

    // -------------------------------------------------------------------------
    // Requests that change the tables

    /** `vote`. */
    method CastVote(userId: nat, pollId: nat, rawOption: string, now: int) returns (r: Result<()>)
      requires Valid()
      modifies this
      ensures Reply(r, State()) == VoteStep(old(State()), userId, pollId, rawOption, now)
      ensures Valid()
    {
      VotePreservesInv(State(), userId, pollId, rawOption, now);
      VoteKeepsOffered(State(), userId, pollId, rawOption, now);
      if pollId !in polls {
        return Err(NotFound);
      }
      var poll := polls[pollId];
      if !AcceptsVotes(poll, now) {
        return Err(PollClosed);
      }
      var option := Strip(rawOption);
      var optionsList := ParseOptions(poll.options);
      if option !in optionsList {
        return Err(InvalidOption);
      }
      var existing := FirstBallot(userId, pollId);
      if existing.Some? {
        return Err(AlreadyVoted);
      }
      votes := votes + [Vote(userId, pollId, option)];
      polls := polls[pollId := poll.(totalVotes := poll.totalVotes + 1)];
      return Ok(());
    }

    /** `close_poll`. */
    method ClosePoll(pollId: nat) returns (r: Result<()>)
      requires Valid()
      modifies this
      ensures Reply(r, State()) == CloseStep(old(State()), pollId)
      ensures Valid()
    {
      ClosePreservesInv(State(), pollId);
      CloseKeepsOffered(State(), pollId);
      if pollId !in polls {
        return Err(NotFound);
      }
      polls := polls[pollId := polls[pollId].(active := false)];
      return Ok(());
    }

    /** `delete_poll`, with the cascade to the poll's votes. */
    method DeletePoll(pollId: nat) returns (r: Result<()>)
      requires Valid()
      modifies this
      ensures Reply(r, State()) == DeleteStep(old(State()), pollId)
      ensures Valid()
    {
      DeletePreservesInv(State(), pollId);
      DeleteKeepsOffered(State(), pollId);
      if pollId !in polls {
        return Err(NotFound);
      }
      polls := polls - {pollId};
      votes := DropPollVotes(votes, pollId);
      return Ok(());
    }

    /** `create_poll`: answers the new poll's id. */
    method CreatePoll(title: string, question: string, options: string, expiration: ExpirationField)
      returns (r: Result<nat>)
      requires Valid()
      modifies this
      ensures Reply(r, State()) == CreateStep(old(State()), title, question, options, expiration)
      ensures Valid()
    {
      CreatePreservesInv(State(), title, question, options, expiration);
      CreateKeepsOffered(State(), title, question, options, expiration);
      var at: Option<int> := None;
      match expiration {
        case Malformed => return Err(BadExpiration);
        case Parsed(t) => at := Some(t);
        case Blank =>
      }
      var id := nextPollId;
      polls := polls[id := Poll(title, question, options, at, true, 0)];
      nextPollId := nextPollId + 1;
      return Ok(id);
    }

    /** The id of the user called `username`, if there is one. */
    method FindByName(username: string) returns (found: Option<nat>)
      requires UniqueUsernames(users)
      ensures found == FindUser(users, username)
    {
      if exists id :: id in users && users[id].username == username {
        var id :| id in users && users[id].username == username;
        return Some(id);
      }
      return None;
    }

    /** `login`, with the self-registration of students. */
    method Login(username: string, password: string) returns (r: Result<Session>)
      requires Valid()
      modifies this
      ensures Reply(r, State()) == LoginStep(old(State()), username, password)
      ensures Valid()
    {
      LoginPreservesInv(State(), username, password);
      ghost var db := State();
      if '@' in password && EndsWith(password, StudentSuffix) {
        if exists id :: id in users && users[id].username == username {
          return Err(UsernameTaken);
        }
        InsertUserPreservesInv(db, username, password, StudentRole);
        users := users[nextUserId := User(username, HashPassword(password), StudentRole)];
        nextUserId := nextUserId + 1;
      }
      assert State() == LoginStep(db, username, password).after;
      var found := FindByName(username);
      if found.Some? {
        var user := users[found.value];
        if CheckPassword(user.credential, password) {
          return Ok(Session(found.value, user.username, user.role));
        }
      }
      return Err(BadCredentials);
    }

    /** `admin_add_user`: answers the new user's id. */
    method AdminAddUser(username: string, password: string, role: Option<string>) returns (r: Result<nat>)
      requires Valid()
      modifies this
      ensures Reply(r, State()) == AddUserStep(old(State()), username, password, role)
      ensures Valid()
    {
      AddUserPreservesInv(State(), username, password, role);
      if exists id :: id in users && users[id].username == username {
        return Err(UsernameTaken);
      }
      var id := nextUserId;
      users := users[id := User(username, HashPassword(password), RoleOrDefault(role))];
      nextUserId := nextUserId + 1;
      return Ok(id);
    }

    /** `admin_register`: answers the new administrator's id. */
    method AdminRegister(username: string, password: string) returns (r: Result<nat>)
      requires Valid()
      modifies this
      ensures Reply(r, State()) == RegisterAdminStep(old(State()), username, password)
      ensures Valid()
    {
      RegisterAdminPreservesInv(State(), username, password);
      if exists id :: id in users && users[id].username == username {
        return Err(UsernameTaken);
      }
      var id := nextUserId;
      users := users[id := User(username, HashPassword(password), AdminRole)];
      nextUserId := nextUserId + 1;
      return Ok(id);
    }
  }
}
