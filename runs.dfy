/** Any sequence of requests, in any order, keeps the integrity invariant;
    so every database the application can reach from an empty one has at
    most one vote per (user, poll), no orphan votes, right counters and
    unique usernames. */
module Runs {
  import opened Schema
  import opened Handlers

  /** One request to one of the handlers. */
  datatype Request =
    | CastVote(userId: nat, pollId: nat, rawOption: string, now: int)
    | ClosePoll(pollId: nat)
    | DeletePoll(pollId: nat)
    | CreatePoll(title: string, question: string, options: string, expiration: ExpirationField)
    | Login(username: string, password: string)
    | AdminAddUser(username: string, password: string, role: Option<string>)
    | AdminRegister(username: string, password: string)

  ghost function Apply(db: Db, req: Request): Db {
    match req
    case CastVote(u, p, o, now) => VoteStep(db, u, p, o, now).after
    case ClosePoll(p) => CloseStep(db, p).after
    case DeletePoll(p) => DeleteStep(db, p).after
    case CreatePoll(t, q, o, e) => CreateStep(db, t, q, o, e).after
    case Login(u, pw) => LoginStep(db, u, pw).after
    case AdminAddUser(u, pw, role) => AddUserStep(db, u, pw, role).after
    case AdminRegister(u, pw) => RegisterAdminStep(db, u, pw).after
  }

  /** The database after serving the requests one after the other. */
  ghost function Run(db: Db, reqs: seq<Request>): Db
    decreases |reqs|
  {
    if reqs == [] then db else Run(Apply(db, reqs[0]), reqs[1..])
  }

  lemma ApplyPreservesInv(db: Db, req: Request)
    requires Inv(db)
    ensures Inv(Apply(db, req))
  {
    match req
    case CastVote(u, p, o, now) => VotePreservesInv(db, u, p, o, now);
    case ClosePoll(p) => ClosePreservesInv(db, p);
    case DeletePoll(p) => DeletePreservesInv(db, p);
    case CreatePoll(t, q, o, e) => CreatePreservesInv(db, t, q, o, e);
    case Login(u, pw) => LoginPreservesInv(db, u, pw);
    case AdminAddUser(u, pw, role) => AddUserPreservesInv(db, u, pw, role);
    case AdminRegister(u, pw) => RegisterAdminPreservesInv(db, u, pw);
  }

  lemma {:induction false} RunPreservesInv(db: Db, reqs: seq<Request>)
    requires Inv(db)
    ensures Inv(Run(db, reqs))
    decreases |reqs|
  {
    if reqs != [] {
      ApplyPreservesInv(db, reqs[0]);
      RunPreservesInv(Apply(db, reqs[0]), reqs[1..]);
    }
  }

  lemma ApplyKeepsOffered(db: Db, req: Request)
    requires Inv(db) && VotesOffered(db)
    ensures VotesOffered(Apply(db, req))
  {
    match req
    case CastVote(u, p, o, now) => VoteKeepsOffered(db, u, p, o, now);
    case ClosePoll(p) => CloseKeepsOffered(db, p);
    case DeletePoll(p) => DeleteKeepsOffered(db, p);
    case CreatePoll(t, q, o, e) => CreateKeepsOffered(db, t, q, o, e);
    case Login(u, pw) =>
    case AdminAddUser(u, pw, role) =>
    case AdminRegister(u, pw) =>
  }

  lemma {:induction false} RunKeepsOffered(db: Db, reqs: seq<Request>)
    requires Inv(db) && VotesOffered(db)
    ensures VotesOffered(Run(db, reqs))
    decreases |reqs|
  {
    if reqs != [] {
      ApplyPreservesInv(db, reqs[0]);
      ApplyKeepsOffered(db, reqs[0]);
      RunKeepsOffered(Apply(db, reqs[0]), reqs[1..]);
    }
  }

  /** After any sequence of requests on a fresh database, each user has at
      most one vote on each poll, every vote's poll exists, and every poll's
      cached total is its number of votes, and every vote names an option
      its poll offers. */
  lemma Reachable(reqs: seq<Request>, userId: nat, pollId: nat)
    ensures var db := Run(EmptyDb, reqs);
      && |Ballots(db.votes, userId, pollId)| <= 1
      && (forall i :: 0 <= i < |db.votes| ==> db.votes[i].pollId in db.polls)
      && (pollId in db.polls ==> db.polls[pollId].totalVotes == |PollVotes(db.votes, pollId)|)
      && UniqueUsernames(db.users)
      && VotesOffered(db)
  {
    EmptyDbInv();
    RunPreservesInv(EmptyDb, reqs);
    RunKeepsOffered(EmptyDb, reqs);
    AtMostOneBallot(Run(EmptyDb, reqs).votes, userId, pollId);
  }
}
