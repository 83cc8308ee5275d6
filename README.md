# Enquete: a verified model of the poll-and-vote core

Enquete is a small Flask application for school polls. Administrators create
polls, close them and delete them. Staff and administrators read the results.
Everyone votes, and students register themselves by logging in with their
school e-mail address as the password. This project models the application's
three tables (users, polls, votes) and its request handlers as a sequential
state machine in Dafny, and proves the handlers' guarantees.

The model has six modules:

- `Text` (`text.dfy`) models the three Python string operations the handlers
  rely on. `Strip` is `str.strip()` with the full `str.isspace` character set.
  `Split` is `str.split(',')`, which always gives one piece more than there
  are commas. `EndsWith` is `str.endswith`. The file proves how the operations
  relate: splitting and joining are inverses, a padded trimmed string strips
  back to itself, and stripping is idempotent.
- `Schema` (`schema.dfy`) holds the records `User`, `Poll` and `Vote` and the
  database `Db`. Users and polls are maps keyed by primary key. Votes are a
  sequence in row order.
  - It also holds the three tests of a poll's state used in the code. `vote`
    uses `AcceptsVotes`, the dashboard uses `Listed`, and the admin listing
    uses `IsExpired`.
  - It parses the options text with `ParseOptions` and holds the queries
    `PollVotes`, `Ballots`, `FindUser` and `DropPollVotes`.
  - It defines the integrity invariant `Inv`:
    - at most one vote per (user, poll);
    - no vote naming a missing poll;
    - each poll's cached `total_votes` equal to its number of vote rows;
    - unique usernames;
    - primary keys below the next key to be issued.
- `Tally` (`tally.dfy`) models `get_vote_count` as a method with a loop. The
  method is proved against `CountOf`, the number of votes that name an option.
- `Handlers` (`handlers.dfy`) states every handler as a function from the
  database to a reply and the new database (`VoteStep`, `CloseStep`,
  `DeleteStep`, `CreateStep`, `LoginStep`, `AddUserStep`,
  `RegisterAdminStep`). Each one checks its conditions in the source's order,
  and its lemmas state what each check and each success does.
- `Runs` (`runs.dfy`) proves that any sequence of requests keeps the
  invariant. So every database reachable from an empty one has at most one
  ballot per user and poll.
- `Enquete` (`portal.dfy`) holds the class `Portal`, whose fields are the
  three tables. Its methods update those fields in place, and each
  state-changing method is proved to leave exactly the state its step
  function describes. The dashboard and the admin listing are loops over the
  polls, and the results page looks up one poll and tallies its votes; all
  three are proved against the queries.

Some behaviour of the code is easy to miss:

- Poll creation does not validate anything except the expiration format.
  Empty titles and questions are accepted, and so is an options text with no
  non-empty option (`CreateEffect`).
- Options are not deduplicated and empty options are not dropped. `"a,,b"`
  offers `""`, and `"Red, Blue, Red"` offers `"Red"` twice, because the list
  comprehension at `enquete/enquete/app.py:139` keeps every piece
  (`ParseJoin`, `ParseEmptyText`).
- Votes are refused only after `expiration < now`, but the dashboard hides a
  poll once `expiration > now` stops holding. At the instant of expiration a
  poll is therefore hidden but still accepts votes (`ExpiryInstant`).
- The student branch of `login` refuses any known username before checking
  the password. A student who registered that way can never log in again with
  the same password (`StudentCannotLogInTwice`).
- Beyond the integrity invariant, the model keeps a second invariant,
  `VotesOffered`: every vote names one of its poll's parsed options. It holds
  because the options text of a poll never changes after creation. It is why
  the results page counts only options that the poll offers.

## Model

| member | source | states |
|---|---|---|
| Text.Strip | enquete/enquete/app.py:138 | the stripped text is no longer than the input and has no whitespace at either end |
| Text.StripShape | enquete/enquete/app.py:138 | `strip()` returns the infix of the input between a run of leading and a run of trailing whitespace |
| Text.StripWithin | enquete/enquete/app.py:139 | stripping introduces no character, so a comma-free piece stays comma-free |
| Text.TrimStartDrops | enquete/enquete/app.py:138 | everything the leading trim removes is whitespace |
| Text.TrimEndDrops | enquete/enquete/app.py:138 | everything the trailing trim removes is whitespace |
| Text.StripPadded | enquete/enquete/app.py:138 | whitespace around a trimmed text is exactly what `strip()` removes |
| Text.StripTrimmed | enquete/enquete/app.py:138 | a text with no whitespace at either end is left unchanged |
| Text.StripIdempotent | enquete/enquete/app.py:139 | stripping twice is stripping once, so the stripped choice and the stripped options compare alike |
| Text.Split | enquete/enquete/app.py:139 | `split(',')` gives one piece more than there are commas, and no piece contains a comma |
| Text.JoinSplit | enquete/enquete/app.py:139 | joining the pieces with commas gives back the original text |
| Text.SplitJoin | enquete/enquete/app.py:139 | splitting a comma-joined list of comma-free parts gives back the parts |
| Schema.CheckPasswordExact | enquete/enquete/app.py:89 | a stored credential accepts exactly the password it was made from |
| Schema.ListedIsAcceptingExceptAtExpiry | enquete/enquete/app.py:115-118 | a poll is on the dashboard iff it accepts votes and its expiration is not exactly now |
| Schema.ExpiryInstant | enquete/enquete/app.py:134 | at `expiration == now` an active poll accepts votes, is not listed, and is not flagged expired |
| Schema.AcceptsIffActiveAndNotExpired | enquete/enquete/app.py:212 | the admin listing's expired flag agrees with the vote-time test: a poll accepts votes iff it is active and not flagged |
| Schema.ParseOptions | enquete/enquete/app.py:139 | the option list has one entry per comma plus one, each trimmed and comma-free |
| Schema.ParseJoin | enquete/enquete/app.py:139 | trimmed comma-free parts joined by commas parse back to exactly those parts, duplicates and empty parts included |
| Schema.ParseTrimsPieces | enquete/enquete/app.py:139 | each parsed option is the stripped piece between two commas |
| Schema.OfferedOption | enquete/enquete/app.py:138-140 | a choice passes the option test iff, stripped, it equals some stripped comma-separated piece |
| Schema.ParseEmptyText | enquete/enquete/app.py:139 | an empty options text still offers one option, the empty one |
| Schema.StudentSuffixHasAt | enquete/enquete/app.py:76 | the '@' test is implied by the school-domain suffix test |
| Schema.FindUser | enquete/enquete/app.py:88 | the username lookup finds a user exactly when one of that name exists, and finds one of that name |
| Schema.PollVotes | enquete/enquete/app.py:55 | the poll's vote query returns votes of that poll only, each from the table, and all of them |
| Schema.DropPollVotes | enquete/enquete/app.py:29 | the cascade keeps exactly the votes of the other polls |
| Schema.Ballots | enquete/enquete/app.py:145 | the (user, poll) query is empty iff the user has not voted on the poll |
| Schema.EmptyDbInv | enquete/enquete/app.py:15-35 | the freshly created tables satisfy the integrity invariant |
| Schema.PollVotesSnoc | enquete/enquete/app.py:151-152 | a new vote row extends exactly its own poll's vote list |
| Schema.PollVotesNone | enquete/enquete/app.py:194-196 | a poll no vote refers to has no votes |
| Schema.DropKeepsOtherPolls | enquete/enquete/app.py:29 | the cascade deletion leaves every other poll's votes as they were |
| Schema.OneVoteSnoc | enquete/enquete/app.py:144-152 | adding a first vote of a (user, poll) pair keeps one vote per pair |
| Schema.DropKeepsOneVote | enquete/enquete/app.py:29 | the cascade deletion keeps one vote per (user, poll) |
| Schema.AtMostOneBallot | enquete/enquete/app.py:144-148 | under the invariant each user has at most one vote on each poll |
| Schema.LastVoteIsFirstOfItsKind | enquete/enquete/app.py:144-148 | under the invariant the last vote's (user, poll) pair occurs nowhere earlier |
| Tally.GetVoteCount | enquete/enquete/app.py:54-59 | the map holds exactly the options that received votes, each with its number of votes (at least 1), and its counts add up to the poll's number of votes |
| Tally.TotalRemove | enquete/enquete/app.py:56-58 | the sum of a tally is any one of its counts plus the sum of the others |
| Tally.TotalBump | enquete/enquete/app.py:58 | counting one more vote for an option raises the sum by exactly one |
| Tally.CountedWasCast | enquete/enquete/app.py:57-58 | an option with a positive count was named by some vote |
| Tally.TalliedOptionsOffered | enquete/enquete/app.py:166-169 | when every vote names an offered option, every key of a poll's tally is one of its parsed options |
| Handlers.VoteRefusedWhenClosed | enquete/enquete/app.py:133-136 | an inactive poll, or one whose expiration is before now, refuses the vote and nothing changes |
| Handlers.VoteNotClosedUntilPastExpiry | enquete/enquete/app.py:134 | an active poll with no expiration, or with one not before now, is never refused as closed |
| Handlers.VoteOptionTest | enquete/enquete/app.py:138-142 | on an open poll the vote is refused as invalid iff the stripped choice differs from every stripped piece |
| Handlers.VoteRefusedWhenAlreadyVoted | enquete/enquete/app.py:144-148 | a user who already voted on the poll is refused and nothing changes |
| Handlers.VoteRefusalChangesNothing | enquete/enquete/app.py:127-148 | every refused vote leaves the database as it was |
| Handlers.VoteAccepted | enquete/enquete/app.py:127-157 | a vote is accepted iff the poll exists and is open, the stripped choice is offered and the user has not voted; then the vote is recorded |
| Handlers.RecordVoteEffect | enquete/enquete/app.py:150-154 | recording adds exactly one vote row with the user, poll and stripped option, raises that poll's total by one, and changes no other poll's votes, no other poll and no user |
| Handlers.VotePreservesInv | enquete/enquete/app.py:127-157 | voting keeps the integrity invariant, one vote per pair and matching counters included |
| Handlers.RecordVotePreservesInv | enquete/enquete/app.py:150-154 | the first vote of a pair on an existing poll, with its counter increment, keeps the invariant |
| Handlers.RecordVoteKeepsCounters | enquete/enquete/app.py:153 | incrementing the total together with inserting the row keeps every counter equal to its vote count |
| Handlers.RecordVoteKeepsOffered | enquete/enquete/app.py:140-154 | recording a vote for an offered option keeps every vote offered |
| Handlers.OfferedPollsKept | enquete/enquete/app.py:223 | changing polls without changing any options text keeps every vote offered |
| Handlers.OfferedSnoc | enquete/enquete/app.py:151-152 | appending a vote for an offered option keeps every vote offered |
| Handlers.OfferedDrop | enquete/enquete/app.py:29 | removing a poll's votes keeps every other vote offered |
| Handlers.VoteKeepsOffered | enquete/enquete/app.py:138-154 | voting keeps every vote naming an option of its poll |
| Handlers.CloseEffect | enquete/enquete/app.py:222-224 | closing an existing poll clears only its active flag; closing a missing one is a not-found error that changes nothing |
| Handlers.CloseIdempotent | enquete/enquete/app.py:222-224 | closing twice has the same result and state as closing once |
| Handlers.ClosedPollRefusesVotes | enquete/enquete/app.py:223 | after closing, every vote on the poll is refused as closed |
| Handlers.ClosePreservesInv | enquete/enquete/app.py:222-224 | closing keeps the integrity invariant |
| Handlers.CloseKeepsOffered | enquete/enquete/app.py:222-224 | closing keeps every vote offered |
| Handlers.DeleteEffect | enquete/enquete/app.py:235-237 | deleting an existing poll removes it and every vote on it and leaves other polls and their votes as they were; deleting a missing one is a not-found error that changes nothing |
| Handlers.DeletedPollRefusesVotes | enquete/enquete/app.py:133 | after deletion, a vote on that poll is a not-found error |
| Handlers.DeletePreservesInv | enquete/enquete/app.py:29 | deletion leaves no orphan vote and keeps every other counter right |
| Handlers.DeleteKeepsOffered | enquete/enquete/app.py:235-237 | deletion keeps every remaining vote offered |
| Handlers.CreateEffect | enquete/enquete/app.py:180-198 | creation refuses only a malformed expiration; otherwise it stores the raw form under a fresh id, active, with no votes |
| Handlers.CreatePreservesInv | enquete/enquete/app.py:194-196 | creation keeps the integrity invariant |
| Handlers.CreateKeepsOffered | enquete/enquete/app.py:194-196 | the new poll has no votes, so every vote stays offered |
| Handlers.InsertUserPreservesInv | enquete/enquete/app.py:17 | a user row under a free username keeps usernames unique |
| Handlers.FindInsertedUser | enquete/enquete/app.py:78-88 | after inserting a user under a free name, looking the name up finds that user |
| Handlers.AddUserEffect | enquete/enquete/app.py:258-270 | a taken username is refused without change; otherwise exactly one user is added, with the form's role or 'admin' |
| Handlers.AddUserPreservesInv | enquete/enquete/app.py:262-268 | adding a user keeps usernames unique |
| Handlers.RegisterAdminEffect | enquete/enquete/app.py:280-291 | a taken username is refused without change; otherwise exactly one administrator is added |
| Handlers.RegisterAdminPreservesInv | enquete/enquete/app.py:283-289 | registering an administrator keeps usernames unique |
| Handlers.LoginRegistersStudent | enquete/enquete/app.py:76-83 | a student password for an unknown username creates exactly one student with that password and logs in as that student |
| Handlers.LoginRefusesKnownStudent | enquete/enquete/app.py:84-86 | a student password for a known username creates nothing and does not log in |
| Handlers.LoginChecksCredentials | enquete/enquete/app.py:88-96 | any other password changes nothing, and logs in iff the user of that name holds that password, with that user's id and role |
| Handlers.StudentCannotLogInTwice | enquete/enquete/app.py:76-89 | a self-registered student's second login with the same password is refused |
| Handlers.LoginPreservesInv | enquete/enquete/app.py:75-92 | login, with its self-registration, keeps usernames unique |
| Runs.ApplyPreservesInv | enquete/enquete/app.py:127-291 | every request keeps the integrity invariant |
| Runs.RunPreservesInv | enquete/enquete/app.py:127-291 | every sequence of requests keeps the integrity invariant |
| Runs.ApplyKeepsOffered | enquete/enquete/app.py:127-291 | every request keeps every vote offered |
| Runs.RunKeepsOffered | enquete/enquete/app.py:127-291 | every sequence of requests keeps every vote offered |
| Runs.Reachable | enquete/enquete/app.py:15-35 | from fresh tables, any requests leave at most one vote per (user, poll), no orphan votes, right counters, unique usernames and only offered options |
| Enquete.Portal.constructor | enquete/enquete/app.py:38-39 | the tables start empty and valid |
| Enquete.Portal.FirstBallot | enquete/enquete/app.py:145 | finds the first vote of the user on the poll, or none iff the user has not voted on it |
| Enquete.Portal.Dashboard | enquete/enquete/app.py:113-123 | lists exactly the active polls with no expiration or one after now, each with its tally, which adds up to its cached total; every listed poll accepts votes |
| Enquete.Portal.AdminPolls | enquete/enquete/app.py:209-213 | flags every poll, those with an expiration before now as expired; a flagged poll refuses votes and an unflagged active one accepts them |
| Enquete.Portal.Results | enquete/enquete/app.py:166-171 | a missing poll is not found; otherwise the page shows the poll's parsed options and its tally, which adds up to the cached total and counts only offered options |
| Enquete.Portal.CastVote | enquete/enquete/app.py:127-157 | the tables change exactly as `VoteStep` says, and stay valid |
| Enquete.Portal.ClosePoll | enquete/enquete/app.py:216-226 | the tables change exactly as `CloseStep` says, and stay valid |
| Enquete.Portal.DeletePoll | enquete/enquete/app.py:229-239 | the tables change exactly as `DeleteStep` says, and stay valid |
| Enquete.Portal.CreatePoll | enquete/enquete/app.py:180-198 | the tables change exactly as `CreateStep` says, and stay valid |
| Enquete.Portal.FindByName | enquete/enquete/app.py:88 | the username lookup is the unique user of that name |
| Enquete.Portal.Login | enquete/enquete/app.py:69-98 | the tables and the session change exactly as `LoginStep` says, and stay valid |
| Enquete.Portal.AdminAddUser | enquete/enquete/app.py:252-270 | the tables change exactly as `AddUserStep` says, and stay valid |
| Enquete.Portal.AdminRegister | enquete/enquete/app.py:273-291 | the tables change exactly as `RegisterAdminStep` says, and stay valid |

## Left out

- Flask routing, templates, `flash`, `redirect` and request-form access are left out. Handler inputs are parameters, and a refusal is an `Error` value instead of a flashed message.
- Sessions are left out. The session user of `vote` is a parameter, and `login` answers the triple it would store.
- The role checks at the top of `results`, `create_poll`, `admin_polls`, `close_poll`, `delete_poll`, `admin_users`, `admin_add_user` and `admin_register` are left out. They guard who may call a handler but do not change what it does.
- SQLAlchemy and SQLite persistence, `db.create_all` and the seeding of the default `admin` user are left out. The tables are in-memory maps and a sequence that start empty, and primary keys come from counters that never reuse an id. The source differs here: `id` is a plain integer primary key (`enquete/enquete/app.py:22`), which SQLite maps to an `INTEGER PRIMARY KEY` without `AUTOINCREMENT`, so it issues max(id)+1, and after deleting the newest poll the next `create_poll` reuses its id. In the source a later vote on that id reaches the new poll; in the model it is not found.
- werkzeug's salted password hashing is left out. A credential is modelled as exactly the password it was made from, so a check succeeds exactly for that password.
- `datetime.strptime` and `datetime.now()` are left out. The clock is an integer parameter, and the parsed expiration form field is an `ExpirationField` (blank, a parsed instant, or malformed).
- Concurrency is left out. The model is sequential, so the check-then-insert race between two concurrent votes of one user is not represented.
- The `enquete` multi-question stub, the `index`, `logout` and `admin_users` pages, the favicon route and the browser script are left out. They have no effect on the tables.
- Missing form fields are left out. A missing `option`, `username`, `password`, `title`, `question` or `options` field makes Flask answer 400, and the model takes every field as present.
- `poll.total_votes or 0` is not modelled as a separate case. The cached total is a natural number that starts at 0, so it is never null.
- The 80-, 100-, 120- and 20-character column widths are left out. SQLite does not enforce them.
