# Swipe, match and conversation engine of a dating web application

This project models the matching core of a small Flask/SQLAlchemy dating
application and proves properties of it in Dafny 4.11. The database becomes
three sequences of records, in primary-key order: users, swipes
(`actor`, `target`, `isLike`, `createdAt`) and messages (`sender`,
`receiver`, `body`, `createdAt`).

- `Models` (models.py) holds the records, the swipe and user lookups, the
  mutual-like predicate `is_match`, the match listing `User.get_matches` and
  the conversation query `Message.get_conversation`, all as functions.
- `SqlLike` gives the meaning of the `ilike` filter on SQLite. The location
  filter is matched as a LIKE pattern with `%`/`_` wildcards, ASCII case
  ignored.
- `Discovery` (app.py, `discover`) is the candidate query. It is a chain of
  optional `query.filter(...)` steps over the user table, followed by
  `first()`. The lemmas prove that this chain equals one reference predicate,
  `Qualifies`.
- `App` (app.py) is a `Store` class with the three tables as `seq` fields.
  Its methods `Like`, `PassUser` and `Chat` check for an existing row or a
  match before appending, and keep the store invariant `Valid()`. That
  invariant says user ids ascend, no self swipe is stored and there is at
  most one swipe per (actor, target) pair. The message form's validators
  are the functions `Blank` and `ValidBody`. Client methods replay the
  discover, like-and-match, match-listing, chat and pass walk-throughs.

Two points where the code's behaviour is easy to misread:
- The location filter is not a plain substring test. The code builds the
  pattern `%<filter>%` without escaping, so a `%` or `_` typed into the filter
  acts as a wildcard. `SqlLike.SurroundedFilterIsSubstring` proves that the
  pattern is the case-insensitive substring test when the filter holds no
  wildcard. `SqlLike.UnderscoreIsAWildcard` shows an input where the two differ.
- `order_by(created_at)` leaves messages with equal timestamps in no
  particular order. The model's sort is stable, but only "sorted by time" and
  "same messages" are proved.

## Model

| member | source | states |
|---|---|---|
| `Models.FindUser` | app.py:164 | the lookup by id finds nothing exactly when no stored user has that id; otherwise it returns a stored user with that id |
| `Models.FindSwipe` | models.py:81-82 | `filter_by(...).first()` on swipes is empty exactly when no stored swipe has this actor and target (and is a like, for the like lookup); otherwise it returns such a stored swipe |
| `Models.Targets` | models.py:62-63 | the comprehension over a user's (like) swipes holds exactly the users that user has swiped (liked); discover builds its `swiped_ids` the same way (app.py:131-132) |
| `Models.IsMatch` | models.py:80-83 | `is_match(a, b)` holds exactly when a like swipe a→b and a like swipe b→a are stored |
| `Models.IsMatchSymmetric` | models.py:81-83 | `is_match(a, b) == is_match(b, a)` |
| `Models.PassesDoNotAffectMatch` | models.py:81-82 | appending any number of pass swipes neither creates nor removes a match |
| `Models.MutualLikes` | models.py:66-76 | the joined user query keeps exactly the stored users whose id is in `like_ids` and who have a like swipe to the user, and never more rows than users |
| `Models.GetMatches` | models.py:59-77 | `get_matches(u)` lists exactly the stored users U with `is_match(u, U)`: soundness and completeness |
| `Models.GetMatchesExcludesSelf` | models.py:66-74 | when no self swipe is stored, `u` never appears among its own matches |
| `Models.Exchanged` | models.py:27-31 | the `or_(and_, and_)` filter keeps exactly the messages between the two users in either direction, each with its stored multiplicity |
| `Models.InsertByTime` | models.py:32 | inserting into a time-sorted list keeps it sorted and adds exactly that message |
| `Models.SortByTime` | models.py:32 | `order_by(created_at.asc())` yields a permutation of its input in non-decreasing timestamp order |
| `Models.GetConversation` | models.py:24-32 | the conversation is in non-decreasing `created_at` order |
| `Models.GetConversationExact` | models.py:27-32 | the conversation holds exactly the messages between the two users, each as often as stored, and no other |
| `Models.ExchangedSymmetric` | models.py:28-31 | the filter is the same whichever user comes first |
| `Models.GetConversationSymmetric` | models.py:28-32 | `get_conversation(a, b)` and `get_conversation(b, a)` are the same sequence |
| `Models.AfterSwipe` | app.py:165-169 | recording a decision leaves the swipes unchanged when the pair already has a swipe; otherwise it appends exactly `(actor, target, isLike, now)` |
| `Models.AfterSwipeKeepsInvariant` | app.py:165-169 | recording a swipe for distinct users preserves "at most one swipe per pair" and "no self swipe" |
| `Models.FirstDecisionWins` | app.py:179-183 | after one decision for a pair, a later decision, like or pass, changes nothing |
| `Models.MutualDecisions` | app.py:165-170 | for a pair with no earlier swipes, two recorded decisions give a match exactly when both are likes |
| `SqlLike.ILike` | app.py:146-147 | `ilike` with a pattern free of `%` and `_` matches exactly the texts equal to the pattern up to ASCII case |
| `SqlLike.SurroundedFilterIsSubstring` | app.py:145-147 | for a filter without `%` or `_`, the pattern `%filter%` matches exactly the locations that contain the filter, ASCII case ignored |
| `SqlLike.UnderscoreIsAWildcard` | app.py:146-147 | the `_` in a location filter matches any one character, so `%P_ne%` matches "Pune" although "P_ne" is not a substring of it |
| `Discovery.Where` | app.py:137-147 | a `query.filter(p)` step keeps exactly the rows satisfying `p` |
| `Discovery.WhereWhere` | app.py:139-147 | two successive filter steps equal one filter by their conjunction, order included |
| `Discovery.WhereFirst` | app.py:149 | the first row left by a filter is the first stored row satisfying it; no row is left exactly when none satisfies it |
| `Discovery.OptionalStep` | app.py:139-147 | an `if filter: query = query.filter(...)` step conjoins its condition when it applies and is the identity otherwise |
| `Discovery.FilterChainQualifies` | app.py:137-147 | the exclusion of `swiped_ids` followed by the optional gender, age and location steps keeps exactly the users satisfying `Qualifies`, in store order |
| `Discovery.Remaining` | app.py:130-147 | the query left after every filter of `discover` holds exactly the stored users that qualify, in store order: not `me`, not swiped by `me`, and passing each supplied filter |
| `Discovery.Candidate` | app.py:130-149 | `query.first()` is the first stored user that qualifies; there is none exactly when no user qualifies |
| `Discovery.CandidateRespectsFilters` | app.py:131-147 | a candidate is a stored user who is not `me` and was not swiped by `me`, like or pass; it has the requested gender, an age within each given bound (a missing age fails), and a location matching the pattern |
| `Discovery.CandidateLocationIsSubstring` | app.py:145-147 | with a wildcard-free location filter, a candidate's location contains the filter, ASCII case ignored |
| `App.Blank` | forms.py:55 | the blank test of `DataRequired()`, `not body.strip()`, holds exactly when every character is whitespace |
| `App.ValidBody` | forms.py:55 | the message form validates (app.py:200) exactly when the body holds a non-blank character and has at most 1000 characters |
| `App.Store.RecordSwipe` | app.py:165-169 | query-before-insert: unchanged store when the pair has a swipe, otherwise exactly one appended swipe; users and messages untouched; the invariant is kept |
| `App.Store.Like` | app.py:159-172 | a self-like changes nothing; a like of an unknown user answers not-found and records nothing; otherwise the like is recorded first-decision-wins, and the outcome reports `is_match` on the new state |
| `App.Store.PassUser` | app.py:174-184 | a self-pass changes nothing; otherwise a pass is recorded first-decision-wins, with no check that the target exists |
| `App.Store.Chat` | app.py:192-210 | unknown user: not found; no match: refused; exactly one message (me → other) is appended only on a POST with a valid body between matched users; otherwise messages are unchanged and the conversation is shown; a user can never message itself |

## Left out

- Registration, login, logout, password hashing and session handling (app.py:37-94): framework and cryptographic glue. The logged-in user is a parameter `me`, required to be a stored user, as `login_required` guarantees.
- Profile editing and avatar upload (app.py:96-120): field assignments from form data and file-system I/O. The store's users are fixed at construction.
- Rendering, flash messages, redirects, error handlers and configuration (app.py:20-35, app.py:212-233). The routes' outcomes are datatypes (`LikeOutcome`, `ChatOutcome`).
- The `discover` and `matches` routes read only. They are the functions `Discovery.Candidate` and `Models.GetMatches` applied to the store's fields, so no method wraps them.
- Clocks: `datetime.utcnow` becomes a supplied integer timestamp `now`.
- The autoincrement ids of swipes and messages: a row's position in its sequence stands for its id.
- SQL details: `query.first()` without `order_by` is taken in store order; NULL logic is limited to "a missing column fails its filter"; `lower()` and `ilike` fold ASCII letters only, as SQLite does by default.
- Form validation beyond the message body: the CSRF token of `validate_on_submit` is taken as valid. `str.strip()` is modelled only for ASCII whitespace. forms.py's profile bounds (age 18..120) are not imposed, because the discover filters do not rely on them.
- Swipe creation time in `is_match`/`get_matches`: it is stored but never read by the core.
- The duplicate-swipe race between concurrent requests: two simultaneous `like` or `pass_user` requests can both find no swipe and both insert. Requests are sequential here, so `Valid()` keeps one swipe per pair. `get_matches` lists each user once in any case, as `Models.MutualLikes` does.
- App.Store.PassUser: does not model SQLite's 64-bit INTEGER limit. Ids and age bounds are unbounded integers here, and the driver's error on binding an integer of 2^63 or more is not modelled. With such a value the route answers with a server error and inserts nothing (app.py:179), while the model records the pass. The same holds for App.Store.Like (app.py:164), App.Store.Chat (app.py:195) and Discovery.Candidate (app.py:141-149), which the model answers with not-found or a candidate.
- `User.display_name` and `__repr__` (models.py:52-57): presentation only.
