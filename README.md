# go-lango services core in Dafny

This project models the write side of the `internal/services` package of
go-lango, a small social network written in Go:

- **Query binding** (`util.go`). `queryBuilder` has a process-wide cache of
  parsed templates. It renders a template, then binds every `@name`
  placeholder to a positional `$n` marker, collecting the arguments.
  `normalizePageSize` clamps a page size.
- **Accounts and follows** (`user.go`).
  - The `rxUsername` and `rxEmail` validators, proved equal to
    character-by-character matchers.
  - The input checks of `CreateUser` and its insert.
  - The `ToggleFollow` transaction.
  - The masking that hides the id and email of profiles that are not the
    viewer's own.
- **Posts** (`post.go`).
  - The content and spoiler checks of `CreatePost`, its transaction, and
    the fan-out of a new post to the author's followers.
  - The `TogglePostLike` transaction.

The PostgreSQL tables are a value (`Store.Tables`). Users, posts and
timeline rows are sequences whose serial id is the position plus one.
Follows and likes are sets of pairs.

The invariant the toggles keep is `Store.Consistent`, made of three parts:
- every denormalised counter (`followers_count`, `followees_count`,
  `likes_count`) equals the number of relationship rows it counts;
- relationship rows refer to existing users and posts;
- emails and usernames are unique.

`Services.Service` holds the tables in a field `db`. A transaction works on
a local copy: a commit assigns it back to `db`, and the deferred rollback is
the copy being dropped on every early return. The parameter `failing` decides
whether a statement fails for a reason outside the model, such as a lost
connection or bad SQL text. Key violations are checked against the tables:
- an insert that repeats an email or a username;
- a follow or like row whose user or post does not exist.

Go's map iteration order is unspecified, so the order in which
`queryBuilder` visits the keys is a parameter (`order`). So is the order of
the rows the fan-out insert returns.

In three places the code behaves unexpectedly; the model follows the code:
- `CreatePost` ignores the error of its commit (post.go:75). The answer is a
  success and the fan-out still runs even when nothing was stored.
  `Services.Service.StorePost` and `Services.Service.CreatePost` state this.
- The unlike branch of `TogglePostLike` never commits; see Findings.
- The fan-out scan at post.go:315 reads the returned `user_id` into
  `PostId`, which the next line overwrites, so every fan-out item has
  `UserId` 0. `Services.Service.FanoutPost` models the scan as written;
  `Services.Service.FanoutPostFixed` is the corrected version. See Findings.

## Model

| member | source | states |
|---|---|---|
| Util.NormalizePageSize | internal/services/util.go:55-66 | the result is always in [1, 20]; 0 gives 10; other values below 1 give 1; values above 20 give 20; values in [1, 20] are returned unchanged |
| Util.NormalizePageSizeIdempotent | internal/services/util.go:59-65 | normalizing a normalized page size changes nothing |
| Util.Marker | internal/services/util.go:49 | `$n` is a `$` followed by the decimal digits of n, as `%d` writes them (no leading zero), whose value is n; it contains no `@` |
| Util.BindKey | internal/services/util.go:44-50 | one turn of the loop: a key whose `@key` is absent is skipped; otherwise its value is appended and every `@key` becomes the marker of the new argument count |
| Util.BindAll | internal/services/util.go:44-50 | the whole loop: `BindKey` applied to each key in visiting order, starting from the rendered text and no arguments |
| Util.MarkerInjective | internal/services/util.go:49 | different argument numbers get different markers |
| Util.BindAllArgs | internal/services/util.go:44-50 | after the loop, the arguments are the values of the keys that contributed, in visiting order, so argument k is the k-th contributing key's value |
| Util.BoundKeysSubsequence | internal/services/util.go:44-48 | the contributing keys are a subsequence of the visited keys, so a key yields at most one argument and there are no more arguments than keys |
| Util.BoundKeysOccur | internal/services/util.go:45-47 | for keys without `$` (`Bindable`), a key contributes only if its `@key` occurs in the rendered text; unused keys are skipped |
| Util.BindKeyReplacesEveryOccurrence | internal/services/util.go:45-49 | when `@key` occurs, its value becomes argument n = old count + 1, every occurrence of `@key` becomes the same `$n` (the text split at `@key` and joined with `$n`), and no `@key` is left |
| Util.BindAllAddsNoPlaceholder | internal/services/util.go:49 | for keys without `$` (`Bindable`), binding writes only markers: any placeholder in the bound query was already in the rendered text |
| Util.BindAllAppend | internal/services/util.go:44-50 | visiting the keys `xs + ys` is visiting `xs`, then `ys` from the state `xs` left |
| Util.BindAllStep | internal/services/util.go:44-50 | at iteration j the loop has added one argument per contributing key so far; the next marker is `$n` with n = that count + 1, so the markers have no gaps; when `@key` occurs, the step appends its value, replaces every `@key` with `$n` and leaves none; the rest of the loop continues from that state |
| Util.BindAllLeavesNoPlaceholder | internal/services/util.go:44-50 | for keys without `$` (`Bindable`), after the loop no placeholder of any visited key is left in the query |
| Util.QueryCache.constructor | internal/services/util.go:18 | the cache starts empty |
| Util.QueryCache.QueryBuilder | internal/services/util.go:25-53 | a cached text is never parsed again and the cache is unchanged; a miss parses exactly once and stores only a successful parse; a parse failure is `ParseError`; a render failure is `ExecError`; otherwise the result is the loop's binding of the rendered text (which the `Util.Bind*` lemmas describe) |
| GoStrings.LeadingSpace | internal/services/user.go:40 | the length of the longest run of `unicode.IsSpace` characters at the start: every character before it is white space, and the one at it, if any, is not |
| GoStrings.TrailingSpace | internal/services/user.go:40 | the length of the longest run of white space at the end: every character in it is white space, and the one just before it, if any, is not |
| GoStrings.TrimSpace | internal/services/user.go:40 | the trimmed text is no longer than the input, and neither starts nor ends with white space |
| GoStrings.TrimSpaceSlice | internal/services/post.go:30 | the trimmed text is the slice of the input that starts right after the leading white space |
| GoStrings.TrimSpaceMargins | internal/services/post.go:30 | everything trimming removes, on either side, is white space |
| GoStrings.TrimSpaceIdempotent | internal/services/user.go:40-46 | trimming trimmed text changes nothing |
| GoStrings.TrimSpaceOfBlank | internal/services/post.go:30-32 | text made only of white space trims to the empty string |
| GoStrings.ReplaceAllIsJoinOfSplit | internal/services/util.go:49 | `strings.ReplaceAll` is splitting at the pattern and joining with the replacement |
| GoStrings.JoinSplitRoundTrip | internal/services/util.go:49 | joining the pieces of a split with the separator gives back the input |
| GoStrings.SplitPieces | internal/services/util.go:49 | no piece of a split contains the separator, and every piece is a substring of the input |
| GoStrings.ReplaceAllRemovesPattern | internal/services/util.go:49 | after the replacement the pattern no longer occurs, when the replacement cannot overlap it |
| GoStrings.ReplaceAllAddsNoOccurrence | internal/services/util.go:49 | replacing creates no occurrence of text that cannot overlap the replacement |
| GoStrings.ReplaceAllAbsent | internal/services/util.go:45-47 | text without the pattern is unchanged by `ReplaceAll` |
| GoStrings.Decimal | internal/services/util.go:49 | `%d` of a natural number is a non-empty string of digits with no leading zero |
| GoStrings.DecimalRoundTrip | internal/services/util.go:49 | reading the digits of `%d` back gives the number |
| Users.ValidUsername | internal/services/user.go:28 | the language of `rxUsername`: 1 to 18 characters, the first an ASCII letter, the others ASCII letters, digits, `_` or `-` |
| Users.MatchUsername | internal/services/user.go:28 | the username matcher: an ASCII letter, then the tail matcher with a budget of 17 characters |
| Users.ValidEmail | internal/services/user.go:27 | the language of `rxEmail`: some `@` after a non-empty run of local-part characters, followed by a valid domain |
| Users.MatchEmail | internal/services/user.go:27 | the email matcher: the local-part matcher, started with nothing read |
| Users.ScanUsernameTailCorrect | internal/services/user.go:28 | the tail matcher accepts exactly at most `budget` characters from `[a-zA-Z0-9_-]` |
| Users.MatchUsernameCorrect | internal/services/user.go:28 | the username matcher accepts exactly the strings of 1 to 18 characters whose first is an ASCII letter and whose others are letters, digits, `_` or `-` |
| Users.SplitDotPrefix | internal/services/user.go:27 | a dot-free prefix joins the first piece of the split at dots |
| Users.DomainAtDot | internal/services/user.go:27 | at a dot, the domain is valid iff the label before it is a label and the rest is a domain |
| Users.DomainStartsWithLabel | internal/services/user.go:27 | the text before a valid domain's first dot is a viable label prefix |
| Users.ScanDomainCorrect | internal/services/user.go:27 | the domain matcher accepts exactly the completions of its label prefix into dot-separated labels of 1 to 63 alphanumerics and hyphens that neither start nor end with a hyphen |
| Users.EmailAtSeparator | internal/services/user.go:27 | after a run of local-part characters, the first `@` is the separator |
| Users.EmailStuck | internal/services/user.go:27 | a run of local-part characters that ends, or meets a character that is neither local nor `@`, is no address |
| Users.ScanLocalCorrect | internal/services/user.go:27 | the local-part matcher accepts exactly the completions of what it has read into an address |
| Users.MatchEmailCorrect | internal/services/user.go:27 | the email matcher accepts exactly `rxEmail`'s language: a non-empty local part over the allowed characters, `@`, then a valid domain |
| Users.ScanDomainHasNoAt | internal/services/user.go:27 | a domain the matcher accepts contains no `@` |
| Users.DomainHasNoAt | internal/services/user.go:27 | a valid domain contains no `@` |
| Users.EmailHasOneAt | internal/services/user.go:27 | a valid address has exactly one `@` |
| Users.ValidateNewUser | internal/services/user.go:40-49 | both inputs are trimmed; a bad email is refused first, iff the trimmed email is invalid; a bad username is refused iff the email is valid and the trimmed username is not; success carries the trimmed pair |
| Users.ValidateNewUserIdempotent | internal/services/user.go:40-49 | the stored pair passes the checks again unchanged |
| Users.Mask | internal/services/user.go:211-215 | `Me` holds iff the viewer is signed in as the profile's user; otherwise the id is 0 and the email is empty; every other field is kept |
| Users.MaskRevealsOnlyOwnProfile | internal/services/user.go:211-215 | a masked profile that shows an id or an email is the viewer's own, unchanged apart from `Me` |
| Users.CollectProfiles | internal/services/user.go:201-219 | the list fails iff some row fails to scan; otherwise it has one masked profile per row, in row order |
| Users.UserProfileFor | internal/services/user.go:222-265 | an invalid trimmed username is refused; a failed fetch is an error; otherwise the profile carries the trimmed username and is masked |
| Posts.CheckContent | internal/services/post.go:30-34 | content is accepted iff its trimmed form has 1 to 480 runes, and the trimmed form is what is kept |
| Posts.CheckSpoiler | internal/services/post.go:36-42 | a missing spoiler is accepted; a present one is accepted iff its trimmed form has 1 to 64 runes, and the trimmed form replaces it |
| Posts.ValidatePost | internal/services/post.go:30-42 | bad content is reported before a bad spoiler; success iff both checks pass, with both trimmed values |
| Posts.CheckContentIdempotent | internal/services/post.go:30-34 | accepted content passes the check again unchanged |
| Posts.CheckSpoilerIdempotent | internal/services/post.go:36-42 | an accepted spoiler passes the check again unchanged |
| Posts.ValidatePostIdempotent | internal/services/post.go:30-42 | the stored input passes both checks again unchanged |
| Posts.BlankContentRefused | internal/services/post.go:30-34 | content made only of white space is refused, however long |
| Store.IndexOfUsername | internal/services/user.go:100-101 | the index found holds the username; none is found only when no row has it |
| Store.UserIdByName | internal/services/user.go:100-101 | `select id from users where username = $1`: a found id is an existing user with that name; nothing is found only when no user has it |
| Store.UserById | internal/services/user.go:62-77 | a user is found iff the id exists, and it carries that row's username and avatar |
| Store.EmailTaken | internal/services/user.go:51-56 | the unique email column: some user row already holds the email |
| Store.UsernameTaken | internal/services/user.go:51-56 | the unique username column: some user row already holds the username |
| Store.AddFollowers | internal/services/user.go:123-124 | `update users set followers_count = followers_count + d where id = $1`: for an existing user, only that row's followers_count moves by d; every other row and table is unchanged; an unknown id changes nothing |
| Store.AddFollowees | internal/services/user.go:119-120 | `update users set followees_count = followees_count + d where id = $1`: for an existing user, only that row's followees_count moves by d; every other row and table is unchanged; an unknown id changes nothing |
| Store.AddLikes | internal/services/post.go:147-148 | `update posts set likes_count = likes_count + d where id = $1`: for an existing post, only that row's likes_count moves by d; every other row and table is unchanged; an unknown id changes nothing |
| Store.FollowToggled | internal/services/user.go:114-141 | the committed toggle: an existing pair is deleted and both counters drop by one; a missing pair is inserted and both counters grow by one |
| Store.FollowToggledEffect | internal/services/user.go:114-141 | a toggle flips exactly the pair (follower, followee); the follower's followees_count and the followee's followers_count move by one in the same direction; no other row or table changes |
| Store.FollowersAdd | internal/services/user.go:128-129 | inserting the pair adds the follower to the followee's followers and the followee to the follower's followees, and changes no other user's sets |
| Store.FollowersRemove | internal/services/user.go:115-116 | deleting the pair removes the follower from the followee's followers and the followee from the follower's followees, and changes no other user's sets |
| Store.FollowToggledRow | internal/services/user.go:119-124 | after a toggle, a user's followers_count moves by one only if they are the followee and their followees_count only if they are the follower; their email and username are unchanged |
| Store.FollowToggledSizes | internal/services/user.go:114-129 | after a toggle, a user's follower set changes size by one only if they are the followee, and their followee set only if they are the follower |
| Store.FollowToggledCounts | internal/services/user.go:114-141 | after a toggle, each user's two counters equal the sizes of their follower and followee sets |
| Store.FollowToggledConsistent | internal/services/user.go:109-145 | a committed toggle keeps the tables consistent |
| Store.FollowToggledTwice | internal/services/user.go:109-141 | two toggles of the same pair restore the relation and every counter |
| Store.LikeAdded | internal/services/post.go:152-159 | a committed like: the pair is inserted and the post's likes_count grows by one |
| Store.LikeRemoved | internal/services/post.go:134-150 | the unlike the branch intends: the pair is deleted and the post's likes_count drops by one |
| Store.LikeFlipped | internal/services/post.go:134-160 | the toggle as intended: an existing like is removed, a missing one is added |
| Store.LikeFlippedEffect | internal/services/post.go:134-160 | a like toggle flips exactly the pair (user, post), moves that post's likes_count by one in the same direction, and changes nothing else |
| Store.LikersFlip | internal/services/post.go:135-153 | inserting or deleting a like changes only that post's set of likers, by that user |
| Store.LikeFlippedConsistent | internal/services/post.go:134-164 | a committed like or unlike keeps the tables consistent |
| Store.LikeFlippedTwice | internal/services/post.go:134-160 | liking and unliking again restores the likes and the counter |
| Store.UserInserted | internal/services/user.go:51-56 | `insert into users(email, username)`: a new row at the end, with no avatar and both counters at zero |
| Store.UserInsertedConsistent | internal/services/user.go:51-56 | a new user with an unused email and username, whose counters start at zero, keeps the tables consistent |
| Store.PostInserted | internal/services/post.go:52-63 | `insert into posts`: a new row at the end for the author, with the content, spoiler and nsfw flag, and likes_count zero |
| Store.PostInsertedConsistent | internal/services/post.go:52-63 | a new post, whose likes_count starts at zero, keeps the tables consistent |
| Store.ItemInserted | internal/services/post.go:65-73 | `insert into timeline (user_id, post_id)`: one new row at the end for that owner and post |
| Store.FannedOut | internal/services/post.go:302-310 | the fan-out insert: the rows of `FanoutRows` appended to the timeline |
| Store.FanoutRows | internal/services/post.go:302-305 | the fan-out inserts one row per follower, in the order the database returns them, each owned by that follower and showing the post |
| Store.ItemsOfFanout | internal/services/post.go:302-305 | the fan-out rows show the post exactly once per follower |
| Store.FanoutComplete | internal/services/post.go:65-73 | after the author's item and the fan-out, a post whose author has N followers is on N + 1 timelines; the new rows belong to followers, and every follower gets one |
| Services.ScanFanoutRow | internal/services/post.go:313-320 | corrected: the item for a returned row is owned by the row's user and shows the post |
| Services.ScanFanoutRowAsWritten | internal/services/post.go:314-319 | the scan as written keeps the row id and the post, and leaves the owner at its zero value: `UserId` is 0 |
| Services.FanoutScanDropsOwner | internal/services/post.go:315 | the scan as written loses the owner of every item, while the corrected scan keeps it |
| Services.Service.CreateUser | internal/services/user.go:38-59 | a bad email, then a bad username, is refused before any write; a failed insert or a taken email or username is `could not insert user` with the tables unchanged; otherwise exactly one user row with the trimmed values is added, and consistency is kept |
| Services.Service.ToggleFollow | internal/services/user.go:81-155 | no auth, an invalid username, an unknown user and following oneself are each refused with their error; success iff every statement succeeds; any failure leaves the tables unchanged; success applies `FollowToggled` and answers the negated prior state with the followee's new followers_count; consistency is kept |
| Services.Service.TogglePostLike | internal/services/post.go:106-170 | as written: success iff every statement up to the return succeeds; a like inserts the pair, increments likes_count, commits and answers `Liked` true with the new count; an unlike answers `Liked` true with the decremented count but leaves the tables unchanged |
| Services.Service.TogglePostLikeFixed | internal/services/post.go:106-170 | corrected: both branches commit; success applies `LikeFlipped` and answers the negated prior state with the new count; any failure changes nothing |
| Services.Service.FanoutPost | internal/services/post.go:301-328 | as written: a failed insert changes nothing; otherwise one timeline row is added per follower, and the items returned are one per row, in order, each the as-written scan of that row: the row's id and the post, with `UserId` 0 |
| Services.Service.FanoutPostFixed | internal/services/post.go:301-328 | corrected: the tables change as in `FanoutPost`; the items returned are one per row, in order, each owned by that row's follower, with the row's id and the post |
| Services.Service.StorePost | internal/services/post.go:44-82 | the primary transaction: success iff begin and both inserts succeed; the answer is the author's item for the new post, marked as the author's own; the post and the item are stored unless the commit fails, whose error is ignored |
| Services.Service.CreatePost | internal/services/post.go:19-103 | no auth is refused before validation; bad content, then a bad spoiler, is refused; success iff validation and the primary transaction succeed; the answer carries the trimmed content and spoiler; a failed fan-out leaves the committed state, otherwise the post is copied to every follower's timeline |
| Services.LikeTwiceAsWritten | internal/services/post.go:134-150 | liking a post twice through the toggle as written answers `Liked` true with count 0 the second time, while the like and a count of 1 stay stored |
| Services.LikeTwiceFixed | internal/services/post.go:134-167 | through the corrected toggle the second call unlikes: it answers `Liked` false with count 0, and the likes and counter are back where they started |

## Left out

- Concurrency. Everything is sequential, so the model does not capture:
  - the fan-out goroutine (post.go:84-100) and its race on the captured
    `result`;
  - the unsynchronised writes to `queriesCache` (util.go:18, 34);
  - the check-then-act window of both toggles.
  `CreatePost` runs the fan-out after the answer is built.
- SQL text and `database/sql`. Statements are effects on the tables, and a
  broken SQL text is one more way a statement can fail (the `failing`
  parameter). These defects are therefore not reproduced:
  - the `==` in the unfollow statement (user.go:115);
  - `$userId` in the unlike statement (post.go:135);
  - the `user_id`/`userId` key mismatch (post.go:246-249).
- The `queryBuilder` calls inside `CreatePost` and `TogglePostLike`. Their
  statements are modelled by their effect, so the ignored binding error at
  post.go:54-61 is not modelled either.
- `text/template`. Parsing and rendering are function parameters of
  `Util.QueryCache.QueryBuilder`, and the template conditionals of the list
  queries are not modelled.
- Util.QueryCache.QueryBuilder: the logging of the query is left out, and
  the error results carry no query text or arguments. The source returns
  `""` and nil for these.
- The list queries `GetUsers`, `GetFollowers` and `GetFollowees`
  (user.go:157-395): their query construction is left out. Only the row
  loop is modelled, as `Users.CollectProfiles`, over rows that are already
  scanned. So is the single-row fetch of `GetUserProfile`, as
  `Users.UserProfileFor`.
- Column/destination mismatches of the scans are not modelled. In
  `GetUserProfile`, the destinations at user.go:234 are in a different
  order from the columns at user.go:236. In `GetUsers`, the two counters
  and the two flags are scanned crosswise (user.go:162-165 against
  203-205).
- Services.Service.FanoutPost: a scan error or iteration error after the
  insert (post.go:315-325) is not modelled. Only the insert itself can
  fail.
- `UpdateAvatar`. It decodes and resizes an image and writes files, which
  is I/O.
- `auth.go` (tokens, clock), the HTTP handlers, `main.go`, the comment
  service and the read-only post queries (post.go:172-298). They are
  outside the core.
- `isUniqueViolation` (util.go:20-23) is a stub. A unique violation is
  modelled directly as a failed insert.
- Creation timestamps: the clock is outside the model. Ids and counters
  are unbounded integers, not 64-bit ones.
- Strings are sequences of code points, so invalid UTF-8 is not modelled.
  Rune counts are sequence lengths.
- The timeline table's references are not checked: its rows may name any
  user and post.
- Posts' foreign key is not checked. The inserts of follows and likes fail
  when the user or post is missing, but a post insert succeeds for a
  signed-in id that has no user row. Through the source this cannot
  happen, since tokens are issued only for existing users (auth.go:26-42).
- Serial ids after a failed insert. PostgreSQL does not roll back a
  sequence, so an insert that fails still uses up an id. Such inserts are
  a refused user, a failing author item, and a commit whose error is
  ignored. The model numbers rows by position, so after one of them the
  ids that `Services.Service.StorePost`, `Services.Service.CreatePost` and
  `Services.Service.FanoutPost` ensure are not the ids the program gets.
- Posts.CheckSpoiler: the source trims the caller's spoiler through the
  pointer (post.go:37), even when the check then fails. The model returns
  the trimmed value and does not write back into the caller's string.
- Services.LikeTwiceAsWritten and Services.LikeTwiceFixed state one
  concrete scenario each. The general unlike behaviour is in
  `Services.Service.TogglePostLike` and `Store.LikeFlippedTwice`.

## Findings

| source | as written | input that shows it | evidently intended | confidence | as-written member | corrected member |
|---|---|---|---|---|---|---|
| internal/services/post.go:134-150 | the unlike branch deletes the like and decrements the counter, then returns without committing; the deferred rollback undoes both, and the answer keeps `Liked` true with the decremented count | user 1 likes post 1 (no likes before), then calls the toggle again: the second answer is `Liked` true with count 0, while the like and a count of 1 stay stored. The `$userId` in the delete (post.go:135) makes that statement (post.go:143) fail first, so today the second call returns "could not remove like from post"; this SQL error hides the missing commit, which shows once the delete is fixed | the unlike is committed and the answer is `Liked` false with the new count, so two toggles restore the tables | not executed | Services.LikeTwiceAsWritten | Services.Service.TogglePostLikeFixed |
| internal/services/post.go:315 | the fan-out scans the returned `user_id` into `PostId`, which the next line overwrites, so every follower's item has `UserId` 0 | any author with one follower whose id is 1 or more: the returned item's `UserId` is 0, not that follower's id | the returned `user_id` fills `UserId` | not executed | Services.FanoutScanDropsOwner, Services.Service.FanoutPost | Services.ScanFanoutRow, Services.Service.FanoutPostFixed |
