# isuconp web application: accounts, upload typing, timeline and user pages

A Dafny model of the small, sequential pieces of logic inside the Ruby
Sinatra application `webapp/ruby/app.rb` of the private-isu image-sharing
site. The database is abstracted as values: the `users` table is a map
from id to row held by a class, and every query result is a sequence the
handler receives in whatever order the database returned it. No SQL, HTTP,
sessions or templates appear in the model.

What is modelled, module by module:

- `Accounts` (accounts.dfy): `validate_user` (a matcher for
  `\A[0-9a-zA-Z_]{3,}\z` plus the password-length test), `register_user`,
  `try_login` and the ban handler of `post '/admin/banned'`, first as
  functions on a table value (`Register`, `Login`, `BanRequest`) with the
  lemmas that relate them, then as the class `UserTable` whose methods
  update the table in place and are proved equal to those functions. The
  password hash is a function value given to the table when it is created,
  so nothing depends on what SHA-256 and MD5 compute.
- `Upload` (upload.dfy): the content-type chain of `post '/'`: first match
  of "jpeg", "png", "gif" as substrings, else refusal.
- `Timeline` (timeline.dfy): `get '/'`: comments grouped by post id in
  arrival order, the de-duplicated author-id list (post authors, then the
  comment authors in the hash's key order), the fetched users indexed by
  id with later rows overwriting earlier ones, and the viewer (the guest
  sentinel `{id: 0}` without a session).
- `UserPages` (userpages.dfy): the filter that keeps the session user's
  comments, shared by `get '/notify'` and `get '/mypage'`, and the mypage
  loop that interleaves posts and comments.
- `Seqs` (seqs.dfy): the Ruby Array/String operations the handlers rely on
  (filtering, `uniq`, `include?`), each with its meaning proved.

Behaviour of this version of the code worth knowing:

- This version of the application has no read-through cache for the
  current user, no 20-item page cap, no three-comment window and no
  filter hiding posts of banned authors; none of them is modelled.
- `get '/'` with no posts at all builds `WHERE post_id IN ()`, which MySQL
  rejects as a syntax error; `Timeline.Home` returns `Failure(EmptyIdList)`
  there instead of an empty page.
- `get '/mypage'` resets `posts` to `[]` (app.rb:341) before the merge loop,
  so the page always receives an empty `mixed`. The loop itself is modelled
  as written: `index` advances once per post until it reaches the last
  comment, and from then on every iteration pushes all remaining posts
  again (with no comments, `n` posts give `n + n(n+1)/2` entries).
- The upload handler assigns an extension (`ext`) alongside the mime type but
  never reads it: the image is written to `image/<id>` with no extension.
- The session user's row is looked up without the `del_flg` filter, so a
  banned user with a live session is still shown as signed in.

## Model

| member | source | states |
|---|---|---|
| `Accounts.AccountPatternMeaning` | webapp/ruby/app.rb:79 | the matcher accepts a name iff it has at least the required length and every character is in `[0-9a-zA-Z_]` |
| `Accounts.ValidateUser` | webapp/ruby/app.rb:78-88 | true iff the name has length ≥ 3 and only `[0-9a-zA-Z_]` characters, and the password has length ≥ 8 |
| `Accounts.Register` | webapp/ruby/app.rb:55-76 | succeeds iff validation passes and no row (banned or not) has the name; on failure the table and counter are unchanged; on success exactly one row, with authority 0, not deleted, and the hash of the password, is added under the next id and every other row is unchanged |
| `Accounts.Login` | webapp/ruby/app.rb:43-53 | a returned user is a stored row with that name, not deleted, whose stored hash equals the hash of the password; with unique names, nothing is returned iff no non-deleted row with that name has a matching hash |
| `Accounts.BanRequest` | webapp/ruby/app.rb:301-326 | unknown caller and authority-0 caller (403) leave the table unchanged; otherwise every listed existing id ends deleted and every other row is unchanged; only `del_flg` ever changes, and no row is added or removed |
| `Accounts.RegisterKeepsTableValid` | webapp/ruby/app.rb:64-73 | registration keeps ids below the counter, rows under their own ids and account names unique |
| `Accounts.RegisteredUserCanLogin` | webapp/ruby/app.rb:55-76 | after a successful registration, logging in with the same name and password returns exactly the new row |
| `Accounts.SecondRegistrationFails` | webapp/ruby/app.rb:64-67 | registering a name that was just registered fails, whatever the password, and changes nothing |
| `Accounts.BanAllSnoc` | webapp/ruby/app.rb:321-323 | one more listed id sets `del_flg` on that row if it exists and touches nothing else |
| `Accounts.BanKeepsTableValid` | webapp/ruby/app.rb:319-323 | a ban request keeps the table's invariant (unique names, ids under the counter) |
| `Accounts.BanIdempotent` | webapp/ruby/app.rb:307-323 | repeating the same ban request gives the same outcome and leaves the table as the first request left it |
| `Accounts.BannedUserCannotLogin` | webapp/ruby/app.rb:44 | after an applied ban, login fails for every listed user, whatever the password |
| `Accounts.BanSparesOtherLogins` | webapp/ruby/app.rb:321-323 | a ban does not change the login result for any name that belongs to no listed user |
| `Accounts.UserTable.RegisterUser` | webapp/ruby/app.rb:55-76 | the in-place registration returns and leaves exactly what `Register` describes, and keeps the table invariant |
| `Accounts.UserTable.TryLogin` | webapp/ruby/app.rb:43-53 | the lookup by name among non-deleted rows and the hash comparison return exactly `Login` of the current table |
| `Accounts.UserTable.Ban` | webapp/ruby/app.rb:301-326 | the caller lookup, the authority check and the per-id update loop return and leave exactly what `BanRequest` describes, and keep the table invariant |
| `Seqs.Includes` | webapp/ruby/app.rb:200 | `include?` is true iff some window of the string equals the pattern |
| `Upload.ClassifyUpload` | webapp/ruby/app.rb:200-212 | accepted iff the type contains "jpeg", "png" or "gif"; a type containing "jpeg" gives jpeg, one containing "png" but not "jpeg" gives png, one containing "gif" but neither of the others gives gif; the result is one of the three fixed mime/extension pairs |
| `Upload.ExtensionMatchesMime` | webapp/ruby/app.rb:200-208 | every accepted type's extension is the one that belongs to its mime type |
| `Upload.PlainTypesClassified` | webapp/ruby/app.rb:200-212 | image/jpeg, image/png and image/gif go to their own branches and image/svg+xml is refused |
| `Timeline.GroupingPartitions` | webapp/ruby/app.rb:158-165 | no bucket is empty; every comment is in the bucket of its own post id and every bucket holds only comments of that post |
| `Timeline.BucketsKeepArrivalOrder` | webapp/ruby/app.rb:158-165 | every bucket is a subsequence of the comments in arrival order |
| `Timeline.GroupByPostSnoc` | webapp/ruby/app.rb:160-164 | one more comment creates its bucket or appends to the end of it, leaving the other buckets alone |
| `Timeline.GroupComments` | webapp/ruby/app.rb:158-165 | the grouping loop produces exactly the grouping by post id |
| `Timeline.FlattenKeepsAll` | webapp/ruby/app.rb:176 | flattening the buckets in hash key order keeps every comment |
| `Seqs.Uniq` | webapp/ruby/app.rb:176 | `uniq` has no duplicates and the same elements as its input |
| `Timeline.TimelineUserIds` | webapp/ruby/app.rb:176 | `user_ids` has no duplicates and holds exactly the post authors and the comment authors |
| `Timeline.IndexByIdMeaning` | webapp/ruby/app.rb:178-181 | the `users` hash has exactly the fetched ids as keys and maps each to the last fetched row with that id |
| `Timeline.IndexOfQueriedRows` | webapp/ruby/app.rb:177-181 | when the fetched rows are the table's rows for `user_ids`, the index is the table restricted to those ids |
| `Timeline.IndexUsers` | webapp/ruby/app.rb:178-181 | the loop produces exactly the index by id |
| `Timeline.ViewerFor` | webapp/ruby/app.rb:167-174 | no session gives the guest; a session gives the row of its user id when there is one, and otherwise the unmatched id itself |
| `Timeline.GuestIsNoUser` | webapp/ruby/app.rb:172-174 | the guest sentinel id 0 is the id of no stored user |
| `Timeline.Home` | webapp/ruby/app.rb:155-184 | fails exactly when there are no posts; otherwise the page holds the posts, the grouped comments, the table restricted to the author ids and the viewer |
| `UserPages.CommentsByExact` | webapp/ruby/app.rb:271-278 | the filter keeps exactly the comments whose user id is the session user's, as a subsequence of the query order |
| `UserPages.SelectCommentsBy` | webapp/ruby/app.rb:344-348 | the push loop produces exactly the filtered comments |
| `UserPages.Notify` | webapp/ruby/app.rb:270-281 | the notifications are exactly the filtered comment list: the session user's comments, with their multiplicities, in query order |
| `UserPages.MergeUpTo` | webapp/ruby/app.rb:350-362 | after `k` iterations `index` is `min(k, last comment)` (0 without comments), so `comments[index]` is always inside the list |
| `UserPages.MergedFromInputs` | webapp/ruby/app.rb:353-367 | every entry of `mixed` is one of the given posts or comments |
| `UserPages.PushRemaining` | webapp/ruby/app.rb:363-365 | the inner loop appends every post from `pi` to the end, in order |
| `UserPages.MergeTimeline` | webapp/ruby/app.rb:350-367 | the loop produces exactly the iteration-by-iteration merge |
| `UserPages.MergedPrefix` | webapp/ruby/app.rb:353-367 | later iterations only append to `mixed` |
| `UserPages.MergedLengthWithoutComments` | webapp/ruby/app.rb:353-366 | without comments, `k` iterations over `n` posts push `k + k·n − k(k−1)/2` entries: the remaining posts are pushed again on every iteration |
| `UserPages.LeadingPostRepeated` | webapp/ruby/app.rb:353-366 | without comments the first post appears twice in a row at the head of `mixed` |
| `UserPages.TwoPostsNoComments` | webapp/ruby/app.rb:350-367 | two posts and no comments give post 1, post 1, post 2, post 2, post 2 |
| `UserPages.Mypage` | webapp/ruby/app.rb:328-374 | because `posts` is emptied before the merge, `mixed` is always empty |

## Left out

- HTTP routing, redirects, the cookie session, flash messages, CSRF token comparisons and ERB rendering (app.rb:9-12, 100-153, 192, 256, 315 and the `erb` calls): framework plumbing. The ban request is modelled after its CSRF check passes.
- Database configuration and the per-thread client cache (app.rb:15-41): environment and thread-local state.
- SQL itself: `ORDER BY`, `LIMIT 30`, `LAST_INSERT_ID` and the `IN (...)` queries are taken as given sequences; the model does not constrain their order or length.
- `calculate_passhash` and `calculate_salt` (app.rb:90-97): SHA-256 and MD5 are library calls; the hash is an arbitrary function value.
- Accounts.Login: account names are compared exactly; MySQL's default collation compares them case-insensitively, which the model does not capture (the same holds for the duplicate-name test of `Accounts.Register`).
- Accounts.BanRequest: the listed ids are integers; the `to_i` conversion of the form strings (a non-numeric string becomes 0 and matches no row) and a missing `uid` parameter (an error) are not modelled.
- Inserting posts and comments, writing the uploaded bytes to disk and the `get '/admin/banned'` listing (app.rb:214-230, 250-268, 283-299): single SQL statements and file I/O with no logic beyond the content-type chain.
- `get '/notify'` without a session evaluates `session[:user][:id]` on nil inside the filter loop, so it fails at the first comment's test (and renders an empty list when there are no comments); the model takes the session user id as given.
- Ruby `nil` inputs (a missing account name or password parameter) are not modelled; inputs are strings.
- The commented-out `/image/:id` route (app.rb:233-248): dead code.
