/** The request handlers of the poll application as functions from the
    database before the request to the reply and the database after it.
    Each one checks its conditions in the order the handler does and, on
    the first that fails, answers with an error and leaves the database as
    it was. */
module Handlers {
  import opened Text
  import opened Schema

  /** The expiration field of the poll creation form, after parsing. */
  datatype ExpirationField =
    | Blank            // missing or empty: the poll never expires
    | Parsed(at: int)  // a well-formed "YYYY-MM-DD HH:MM"
    | Malformed        // any other text

  /** What a successful login puts into the session. */
  datatype Session = Session(userId: nat, username: string, role: string)

  // ---------------------------------------------------------------------------
  // The steps

  /** `vote`: the poll must exist and accept votes, the trimmed option must be
      one of the poll's options, and the user must not have voted on it yet;
      then one vote row is added and the poll's cached total goes up by one. */
  function VoteStep(db: Db, userId: nat, pollId: nat, rawOption: string, now: int): Reply<()> {
    if pollId !in db.polls then Reply(Err(NotFound), db)
    else
      var poll := db.polls[pollId];
      if !AcceptsVotes(poll, now) then Reply(Err(PollClosed), db)
      else
        var option := Strip(rawOption);
        if option !in ParseOptions(poll.options) then Reply(Err(InvalidOption), db)
        else if HasVoted(db.votes, userId, pollId) then Reply(Err(AlreadyVoted), db)
        else Reply(Ok(()), RecordVote(db, Vote(userId, pollId, option)))
  }

  /** The two writes of an accepted vote: the new vote row, and the poll's
      cached total up by one. */
  function RecordVote(db: Db, v: Vote): Db
    requires v.pollId in db.polls
  {
    var poll := db.polls[v.pollId];
    db.(votes := db.votes + [v], polls := db.polls[v.pollId := poll.(totalVotes := poll.totalVotes + 1)])
  }

  /** `close_poll`: clears the active flag of an existing poll. */
  function CloseStep(db: Db, pollId: nat): Reply<()> {
    if pollId !in db.polls then Reply(Err(NotFound), db)
    else Reply(Ok(()), db.(polls := db.polls[pollId := db.polls[pollId].(active := false)]))
  }

  /** `delete_poll`: removes an existing poll and, by cascade, its votes. */
  function DeleteStep(db: Db, pollId: nat): Reply<()> {
    if pollId !in db.polls then Reply(Err(NotFound), db)
    else Reply(Ok(()), db.(polls := db.polls - {pollId}, votes := DropPollVotes(db.votes, pollId)))
  }

  /** `create_poll`: stores the form as given under the next poll id, active
      and with no votes; only an unparsable expiration is refused. */
  function CreateStep(db: Db, title: string, question: string, options: string,
                      expiration: ExpirationField): Reply<nat> {
    if expiration.Malformed? then Reply(Err(BadExpiration), db)
    else
      var id := db.nextPollId;
      var poll := Poll(title, question, options,
                       if expiration.Parsed? then Some(expiration.at) else None, true, 0);
      Reply(Ok(id), db.(polls := db.polls[id := poll], nextPollId := id + 1))
  }

  /** Adds a user row under the next user id. */
  function InsertUser(db: Db, username: string, password: string, role: string): Db {
    db.(users := db.users[db.nextUserId := User(username, HashPassword(password), role)],
        nextUserId := db.nextUserId + 1)
  }

  /** `login`: a student password for an unknown username first registers a
      student; a student password for a known username is refused. Then the
      password is checked against the user of that name. */
  ghost function LoginStep(db: Db, username: string, password: string): Reply<Session> {
    if IsStudentPassword(password) && HasUsername(db.users, username) then
      Reply(Err(UsernameTaken), db)
    else
      var db' := if IsStudentPassword(password) then InsertUser(db, username, password, StudentRole) else db;
      match FindUser(db'.users, username)
      case Some(id) =>
        var user := db'.users[id];
        if CheckPassword(user.credential, password) then Reply(Ok(Session(id, user.username, user.role)), db')
        else Reply(Err(BadCredentials), db')
      case None => Reply(Err(BadCredentials), db')
  }

  /** The role field of `admin_add_user`, `'admin'` when the form lacks it. */
  function RoleOrDefault(role: Option<string>): string {
    if role.Some? then role.value else AdminRole
  }

  /** `admin_add_user`: adds a user with the given (or default) role unless the username is taken. */
  function AddUserStep(db: Db, username: string, password: string, role: Option<string>): Reply<nat> {
    if HasUsername(db.users, username) then Reply(Err(UsernameTaken), db)
    else Reply(Ok(db.nextUserId), InsertUser(db, username, password, RoleOrDefault(role)))
  }

  /** `admin_register`: adds an administrator unless the username is taken. */
  function RegisterAdminStep(db: Db, username: string, password: string): Reply<nat> {
    if HasUsername(db.users, username) then Reply(Err(UsernameTaken), db)
    else Reply(Ok(db.nextUserId), InsertUser(db, username, password, AdminRole))
  }

  // ---------------------------------------------------------------------------
  // Offered options

  /** Replacing the polls keeps every vote offered when no poll with votes
      changes its options text or appears anew. */
  lemma OfferedPollsKept(votes: seq<Vote>, polls: map<nat, Poll>, polls': map<nat, Poll>)
    requires AllOffered(votes, polls)
    requires forall id :: id in polls' && id in polls ==> polls'[id].options == polls[id].options
    requires forall i :: 0 <= i < |votes| && votes[i].pollId in polls' ==> votes[i].pollId in polls
    ensures AllOffered(votes, polls')
  {
    forall i | 0 <= i < |votes| && votes[i].pollId in polls'
      ensures Offers(polls'[votes[i].pollId], votes[i].option)
    {
      assert Offers(polls[votes[i].pollId], votes[i].option);
      assert polls'[votes[i].pollId].options == polls[votes[i].pollId].options;
    }
  }

  /** Appending a vote for an offered option keeps every vote offered. */
  lemma OfferedSnoc(votes: seq<Vote>, polls: map<nat, Poll>, v: Vote)
    requires AllOffered(votes, polls) && v.pollId in polls && Offers(polls[v.pollId], v.option)
    ensures AllOffered(votes + [v], polls)
  {
    forall i | 0 <= i < |votes + [v]| && (votes + [v])[i].pollId in polls
      ensures Offers(polls[(votes + [v])[i].pollId], (votes + [v])[i].option)
    {
      if i < |votes| {
        assert (votes + [v])[i] == votes[i];
        assert Offers(polls[votes[i].pollId], votes[i].option);
      }
    }
  }

  /** Dropping the votes of a poll keeps the others offered. */
  lemma OfferedDrop(votes: seq<Vote>, polls: map<nat, Poll>, pollId: nat)
    requires AllOffered(votes, polls)
    ensures AllOffered(DropPollVotes(votes, pollId), polls)
  {
    var kept := DropPollVotes(votes, pollId);
    forall i | 0 <= i < |kept| && kept[i].pollId in polls
      ensures Offers(polls[kept[i].pollId], kept[i].option)
    {
      var j :| 0 <= j < |votes| && votes[j] == kept[i];
      assert Offers(polls[votes[j].pollId], votes[j].option);
    }
  }

  // ---------------------------------------------------------------------------
  // Voting

  /** A closed or expired poll refuses the vote and nothing changes. */
  lemma VoteRefusedWhenClosed(db: Db, userId: nat, pollId: nat, rawOption: string, now: int)
    requires pollId in db.polls
    requires !db.polls[pollId].active || IsExpired(db.polls[pollId], now)
    ensures VoteStep(db, userId, pollId, rawOption, now) == Reply(Err(PollClosed), db)
  {
  }

  /** An active poll whose expiration is unset or not before now is never
      refused as closed, in particular at the instant of its expiration. */
  lemma VoteNotClosedUntilPastExpiry(db: Db, userId: nat, pollId: nat, rawOption: string, now: int)
    requires pollId in db.polls && db.polls[pollId].active
    requires db.polls[pollId].expiration.None? || now <= db.polls[pollId].expiration.value
    ensures VoteStep(db, userId, pollId, rawOption, now).result != Err(PollClosed)
  {
  }

  /** On an open poll the option test decides exactly: the vote is refused as
      invalid if and only if the trimmed option is none of the trimmed pieces
      of the poll's options text. */
  lemma VoteOptionTest(db: Db, userId: nat, pollId: nat, rawOption: string, now: int)
    requires pollId in db.polls && AcceptsVotes(db.polls[pollId], now)
    ensures VoteStep(db, userId, pollId, rawOption, now).result == Err(InvalidOption)
        <==> forall i :: 0 <= i < |Split(db.polls[pollId].options, ',')| ==>
               Strip(Split(db.polls[pollId].options, ',')[i]) != Strip(rawOption)
  {
    OfferedOption(db.polls[pollId].options, rawOption);
  }

  /** A second vote by the same user on the same poll is refused and changes nothing. */
  lemma VoteRefusedWhenAlreadyVoted(db: Db, userId: nat, pollId: nat, rawOption: string, now: int)
    requires HasVoted(db.votes, userId, pollId)
    ensures VoteStep(db, userId, pollId, rawOption, now).result.Err?
    ensures VoteStep(db, userId, pollId, rawOption, now).after == db
  {
  }

  /** Every refusal leaves the database as it was. */
  lemma VoteRefusalChangesNothing(db: Db, userId: nat, pollId: nat, rawOption: string, now: int)
    ensures VoteStep(db, userId, pollId, rawOption, now).result.Err? ==>
            VoteStep(db, userId, pollId, rawOption, now).after == db
  {
  }

  /** A vote is accepted exactly when every check passes, and then the
      database is the old one with the vote recorded (see `RecordVoteEffect`). */
  lemma VoteAccepted(db: Db, userId: nat, pollId: nat, rawOption: string, now: int)
    ensures var r := VoteStep(db, userId, pollId, rawOption, now);
      r.result.Ok? <==>
        && pollId in db.polls && AcceptsVotes(db.polls[pollId], now)
        && Strip(rawOption) in ParseOptions(db.polls[pollId].options)
        && !HasVoted(db.votes, userId, pollId)
    ensures var r := VoteStep(db, userId, pollId, rawOption, now);
      r.result.Ok? ==> pollId in db.polls && r.after == RecordVote(db, Vote(userId, pollId, Strip(rawOption)))
  {
  }

  /** Recording a vote adds exactly that row, raises its poll's total by
      one, and changes no other poll, vote or user. */
  lemma RecordVoteEffect(db: Db, v: Vote)
    requires v.pollId in db.polls
    ensures var db' := RecordVote(db, v);
      && db'.votes == db.votes + [v]
      && db'.polls.Keys == db.polls.Keys
      && db'.polls[v.pollId] == db.polls[v.pollId].(totalVotes := db.polls[v.pollId].totalVotes + 1)
      && (forall id :: id in db.polls && id != v.pollId ==> db'.polls[id] == db.polls[id])
      && db'.users == db.users
      && db'.nextUserId == db.nextUserId && db'.nextPollId == db.nextPollId
    ensures forall id :: id in db.polls && id != v.pollId ==>
      PollVotes(RecordVote(db, v).votes, id) == PollVotes(db.votes, id)
    ensures PollVotes(RecordVote(db, v).votes, v.pollId) == PollVotes(db.votes, v.pollId) + [v]
  {
    forall id | id in db.polls
      ensures PollVotes(RecordVote(db, v).votes, id) == PollVotes(db.votes, id) + (if id == v.pollId then [v] else [])
    {
      PollVotesSnoc(db.votes, v, id);
    }
  }

  lemma VotePreservesInv(db: Db, userId: nat, pollId: nat, rawOption: string, now: int)
    requires Inv(db)
    ensures Inv(VoteStep(db, userId, pollId, rawOption, now).after)
  {
    var r := VoteStep(db, userId, pollId, rawOption, now);
    if r.result.Ok? {
      RecordVotePreservesInv(db, Vote(userId, pollId, Strip(rawOption)));
    }
  }

  /** Adding the first vote of a (user, poll) pair on an existing poll
      together with the poll's counter increment keeps the invariant. */
  lemma RecordVotePreservesInv(db: Db, v: Vote)
    requires Inv(db) && v.pollId in db.polls && !HasVoted(db.votes, v.userId, v.pollId)
    ensures Inv(RecordVote(db, v))
  {
    var db' := RecordVote(db, v);
    assert db'.votes == db.votes + [v] && db'.polls.Keys == db.polls.Keys;
    assert OneVotePerUserPoll(db'.votes) by {
      OneVoteSnoc(db.votes, v);
    }
    assert NoOrphanVotes(db') by {
      assert forall i :: 0 <= i < |db.votes| ==> db'.votes[i] == db.votes[i];
    }
    assert CountersMatch(db') by {
      RecordVoteKeepsCounters(db, v);
    }
    assert KeysIssued(db');
  }

  lemma RecordVoteKeepsCounters(db: Db, v: Vote)
    requires CountersMatch(db) && v.pollId in db.polls
    ensures CountersMatch(RecordVote(db, v))
  {
    var db' := RecordVote(db, v);
    forall id | id in db'.polls
      ensures db'.polls[id].totalVotes == |PollVotes(db'.votes, id)|
    {
      PollVotesSnoc(db.votes, v, id);
    }
  }

  lemma RecordVoteKeepsOffered(db: Db, v: Vote)
    requires VotesOffered(db) && v.pollId in db.polls && Offers(db.polls[v.pollId], v.option)
    ensures VotesOffered(RecordVote(db, v))
  {
    var polls' := RecordVote(db, v).polls;
    OfferedPollsKept(db.votes, db.polls, polls');
    OfferedSnoc(db.votes, polls', v);
  }

  // ---------------------------------------------------------------------------
  // Closing

  /** Closing an existing poll clears its active flag and changes nothing
      else; closing a missing poll is a not-found error that changes nothing. */
  lemma CloseEffect(db: Db, pollId: nat)
    ensures var r := CloseStep(db, pollId);
      && (r.result.Ok? <==> pollId in db.polls)
      && (r.result.Err? ==> r.result.error == NotFound && r.after == db)
      && (r.result.Ok? ==>
            && r.after.polls.Keys == db.polls.Keys
            && !r.after.polls[pollId].active
            && r.after.polls[pollId].(active := true) == db.polls[pollId].(active := true)
            && (forall id :: id in db.polls && id != pollId ==> r.after.polls[id] == db.polls[id])
            && r.after.votes == db.votes && r.after.users == db.users)
  {
  }

  /** Closing twice is the same as closing once. */
  lemma CloseIdempotent(db: Db, pollId: nat)
    ensures CloseStep(CloseStep(db, pollId).after, pollId).after == CloseStep(db, pollId).after
    ensures CloseStep(CloseStep(db, pollId).after, pollId).result == CloseStep(db, pollId).result
  {
  }

  /** A closed poll refuses every later vote. */
  lemma ClosedPollRefusesVotes(db: Db, pollId: nat, userId: nat, rawOption: string, now: int)
    requires pollId in db.polls
    ensures VoteStep(CloseStep(db, pollId).after, userId, pollId, rawOption, now).result == Err(PollClosed)
  {
  }

  lemma ClosePreservesInv(db: Db, pollId: nat)
    requires Inv(db)
    ensures Inv(CloseStep(db, pollId).after)
  {
  }

  // ---------------------------------------------------------------------------
  // Deleting

  /** Deleting an existing poll removes it and every vote on it, and leaves
      the other polls and their votes as they were; deleting a missing poll
      is a not-found error that changes nothing. */
  lemma DeleteEffect(db: Db, pollId: nat)
    ensures var r := DeleteStep(db, pollId);
      && (r.result.Ok? <==> pollId in db.polls)
      && (r.result.Err? ==> r.result.error == NotFound && r.after == db)
      && (r.result.Ok? ==>
            && r.after.polls == db.polls - {pollId}
            && (forall i :: 0 <= i < |r.after.votes| ==> r.after.votes[i].pollId != pollId)
            && (forall other :: other != pollId ==>
                  PollVotes(r.after.votes, other) == PollVotes(db.votes, other))
            && r.after.users == db.users)
  {
    if pollId in db.polls {
      forall other | other != pollId
        ensures PollVotes(DropPollVotes(db.votes, pollId), other) == PollVotes(db.votes, other)
      {
        DropKeepsOtherPolls(db.votes, pollId, other);
      }
    }
  }

  /** A deleted poll cannot be voted on afterwards. */
  lemma DeletedPollRefusesVotes(db: Db, pollId: nat, userId: nat, rawOption: string, now: int)
    ensures VoteStep(DeleteStep(db, pollId).after, userId, pollId, rawOption, now).result == Err(NotFound)
  {
  }

  /** Deletion leaves no orphan vote and keeps every other counter right. */
  lemma DeletePreservesInv(db: Db, pollId: nat)
    requires Inv(db)
    ensures Inv(DeleteStep(db, pollId).after)
  {
    var r := DeleteStep(db, pollId);
    if r.result.Ok? {
      var kept := DropPollVotes(db.votes, pollId);
      DropKeepsOneVote(db.votes, pollId);
      forall i | 0 <= i < |kept|
        ensures kept[i].pollId in r.after.polls
      {
        assert kept[i] in db.votes;
      }
      forall id | id in r.after.polls
        ensures r.after.polls[id].totalVotes == |PollVotes(kept, id)|
      {
        DropKeepsOtherPolls(db.votes, pollId, id);
      }
    }
  }

  // ---------------------------------------------------------------------------
  // Creating

  /** Creation refuses only a malformed expiration; otherwise the poll is
      stored under a fresh id with the raw options text, active and with no
      votes, whatever the title, question or options are. */
  lemma CreateEffect(db: Db, title: string, question: string, options: string, expiration: ExpirationField)
    requires Inv(db)
    ensures var r := CreateStep(db, title, question, options, expiration);
      && (r.result.Ok? <==> !expiration.Malformed?)
      && (r.result.Err? ==> r.result.error == BadExpiration && r.after == db)
      && (r.result.Ok? ==>
            && r.result.value !in db.polls
            && r.after.polls == db.polls[r.result.value := r.after.polls[r.result.value]]
            && r.after.polls[r.result.value].options == options
            && r.after.polls[r.result.value].title == title
            && r.after.polls[r.result.value].question == question
            && r.after.polls[r.result.value].active
            && (expiration.Blank? ==> r.after.polls[r.result.value].expiration.None?)
            && (expiration.Parsed? ==> r.after.polls[r.result.value].expiration == Some(expiration.at))
            && |PollVotes(r.after.votes, r.result.value)| == 0
            && r.after.votes == db.votes && r.after.users == db.users)
  {
    PollVotesNone(db.votes, db.nextPollId);
  }

  lemma CreatePreservesInv(db: Db, title: string, question: string, options: string, expiration: ExpirationField)
    requires Inv(db)
    ensures Inv(CreateStep(db, title, question, options, expiration).after)
  {
    PollVotesNone(db.votes, db.nextPollId);
  }

  // ---------------------------------------------------------------------------
  // Users

  /** A new user row keeps usernames unique when its name was free. */
  lemma InsertUserPreservesInv(db: Db, username: string, password: string, role: string)
    requires Inv(db) && !HasUsername(db.users, username)
    ensures Inv(InsertUser(db, username, password, role))
    ensures HasUsername(InsertUser(db, username, password, role).users, username)
  {
    var users := InsertUser(db, username, password, role).users;
    assert users[db.nextUserId].username == username;
  }

  /** After inserting a user under a free name, looking the name up finds that user. */
  lemma FindInsertedUser(db: Db, username: string, password: string, role: string)
    requires Inv(db) && !HasUsername(db.users, username)
    ensures FindUser(InsertUser(db, username, password, role).users, username) == Some(db.nextUserId)
  {
    InsertUserPreservesInv(db, username, password, role);
  }

  /** `admin_add_user` refuses a taken username without change; otherwise it
      adds exactly one user, with the form's role or `'admin'`. */
  lemma AddUserEffect(db: Db, username: string, password: string, role: Option<string>)
    requires Inv(db)
    ensures var r := AddUserStep(db, username, password, role);
      && (r.result.Err? <==> HasUsername(db.users, username))
      && (r.result.Err? ==> r.result.error == UsernameTaken && r.after == db)
      && (r.result.Ok? ==>
            && r.result.value !in db.users
            && r.after.users == db.users[r.result.value := User(username, HashPassword(password), RoleOrDefault(role))]
            && |r.after.users| == |db.users| + 1
            && r.after.polls == db.polls && r.after.votes == db.votes)
    ensures role.None? && !HasUsername(db.users, username) ==>
      AddUserStep(db, username, password, role).after.users[db.nextUserId].role == AdminRole
  {
  }

  lemma AddUserPreservesInv(db: Db, username: string, password: string, role: Option<string>)
    requires Inv(db)
    ensures Inv(AddUserStep(db, username, password, role).after)
  {
    if !HasUsername(db.users, username) {
      InsertUserPreservesInv(db, username, password, RoleOrDefault(role));
    }
  }

  /** `admin_register` refuses a taken username without change; otherwise it
      adds exactly one administrator. */
  lemma RegisterAdminEffect(db: Db, username: string, password: string)
    requires Inv(db)
    ensures var r := RegisterAdminStep(db, username, password);
      && (r.result.Err? <==> HasUsername(db.users, username))
      && (r.result.Err? ==> r.result.error == UsernameTaken && r.after == db)
      && (r.result.Ok? ==>
            && r.result.value !in db.users
            && r.after.users == db.users[r.result.value := User(username, HashPassword(password), AdminRole)]
            && |r.after.users| == |db.users| + 1
            && r.after.polls == db.polls && r.after.votes == db.votes)
  {
  }

  lemma RegisterAdminPreservesInv(db: Db, username: string, password: string)
    requires Inv(db)
    ensures Inv(RegisterAdminStep(db, username, password).after)
  {
    if !HasUsername(db.users, username) {
      InsertUserPreservesInv(db, username, password, AdminRole);
    }
  }

  /** A student password for an unknown username registers exactly one
      student with that password and logs in as that student. */
  lemma LoginRegistersStudent(db: Db, username: string, password: string)
    requires Inv(db) && IsStudentPassword(password) && !HasUsername(db.users, username)
    ensures var r := LoginStep(db, username, password);
      && r.result == Ok(Session(db.nextUserId, username, StudentRole))
      && db.nextUserId !in db.users
      && r.after.users == db.users[db.nextUserId := User(username, HashPassword(password), StudentRole)]
      && |r.after.users| == |db.users| + 1
      && r.after.polls == db.polls && r.after.votes == db.votes
  {
    FindInsertedUser(db, username, password, StudentRole);
  }

  /** A student password for a known username creates nothing and does not log in. */
  lemma LoginRefusesKnownStudent(db: Db, username: string, password: string)
    requires IsStudentPassword(password) && HasUsername(db.users, username)
    ensures LoginStep(db, username, password) == Reply(Err(UsernameTaken), db)
  {
  }

  /** Any other password changes nothing, and logs in exactly when the user of
      that name holds that password, with that user's id, name and role. */
  lemma LoginChecksCredentials(db: Db, username: string, password: string)
    requires Inv(db) && !IsStudentPassword(password)
    ensures var r := LoginStep(db, username, password);
      && r.after == db
      && (r.result.Ok? <==> exists id :: id in db.users && db.users[id].username == username
                                        && db.users[id].credential == HashPassword(password))
      && (r.result.Ok? ==>
            && r.result.value.userId in db.users
            && db.users[r.result.value.userId].username == username
            && r.result.value.role == db.users[r.result.value.userId].role)
      && (r.result.Err? ==> r.result.error == BadCredentials)
  {
  }

  /** As written, a self-registered student can never log in again: the same
      student password for the now known username is refused. */
  lemma StudentCannotLogInTwice(db: Db, username: string, password: string)
    requires Inv(db) && IsStudentPassword(password) && !HasUsername(db.users, username)
    ensures LoginStep(db, username, password).result.Ok?
    ensures LoginStep(LoginStep(db, username, password).after, username, password).result == Err(UsernameTaken)
  {
    LoginRegistersStudent(db, username, password);
    InsertUserPreservesInv(db, username, password, StudentRole);
  }

  lemma LoginPreservesInv(db: Db, username: string, password: string)
    requires Inv(db)
    ensures Inv(LoginStep(db, username, password).after)
  {
    if IsStudentPassword(password) && !HasUsername(db.users, username) {
      InsertUserPreservesInv(db, username, password, StudentRole);
    }
  }

  // ---------------------------------------------------------------------------
  // Every vote names an option its poll offers

  lemma VoteKeepsOffered(db: Db, userId: nat, pollId: nat, rawOption: string, now: int)
    requires VotesOffered(db)
    ensures VotesOffered(VoteStep(db, userId, pollId, rawOption, now).after)
  {
    if VoteStep(db, userId, pollId, rawOption, now).result.Ok? {
      assert Offers(db.polls[pollId], Strip(rawOption));
      RecordVoteKeepsOffered(db, Vote(userId, pollId, Strip(rawOption)));
    }
  }

  lemma CloseKeepsOffered(db: Db, pollId: nat)
    requires VotesOffered(db)
    ensures VotesOffered(CloseStep(db, pollId).after)
  {
    OfferedPollsKept(db.votes, db.polls, CloseStep(db, pollId).after.polls);
  }

  lemma DeleteKeepsOffered(db: Db, pollId: nat)
    requires VotesOffered(db)
    ensures VotesOffered(DeleteStep(db, pollId).after)
  {
    if pollId in db.polls {
      OfferedPollsKept(db.votes, db.polls, db.polls - {pollId});
      OfferedDrop(db.votes, db.polls - {pollId}, pollId);
    }
  }

  /** The new poll has no votes yet, since every vote names an existing poll. */
  lemma CreateKeepsOffered(db: Db, title: string, question: string, options: string, expiration: ExpirationField)
    requires VotesOffered(db) && NoOrphanVotes(db) && KeysIssued(db)
    ensures VotesOffered(CreateStep(db, title, question, options, expiration).after)
  {
    OfferedPollsKept(db.votes, db.polls, CreateStep(db, title, question, options, expiration).after.polls);
  }
}
