# Mini-Linkedin backend core in Dafny

This project models the core of the Mini-Linkedin backend: the post routes
(create, feed, read one, delete by the author, the like toggle, comments), the
user routes (profile read, a user's posts, profile update, the connect toggle,
the connection-status read, the user search), and the Post schema with its
limits and defaults.

Each route handler is a pure function. It takes the document store
(`Schema.Store`: the users and posts collections, a clock and the next fresh
post id), the caller's id where the route is private, and the request fields.
It returns either `Ok` or an `ApiError`:

- `Validation` stands for 400 with validation errors.
- `NotFound` stands for 404.
- `Unauthorized` stands for 401.
- `SelfConnect` stands for the 400 on a self-connection.
- `ServerError` stands for 500.

A write returns a `Reply` holding the store after the save and the record sent back.

The model has seven files, each a module:

- `lists.dfy` (`Lists`): the JavaScript array operations the handlers use.
  - `findIndex`, `splice` at one index, `filter` and `push`.
  - The enumeration of a collection's documents as entries.
- `ordering.dfy` (`Ordering`): the `sort({ createdAt: -1 })` of the listing queries, as an insertion sort, and `limit(n)`.
- `text.dfy` (`Text`): case-insensitive substring matching for the search filter.
- `schema.dfy` (`Schema`): the record shapes, the length limits, and the store invariant the handlers keep.
  - Posts are valid per the schema, and comments are newest first.
  - `likes` holds no duplicate.
  - `connections` and `followers` hold no duplicate and never their owner.
  - Every entry refers to an existing user.
  - The two sides mirror each other.
- `posts.dfy` (`Posts`): the post routes and their properties.
- `users.dfy` (`Users`): the user routes and their properties.
- `scenarios.dfy` (`Scenarios`): concrete request sequences on a two-user store.

Time is the store's `clock`. Every post save (create, like, comment) stamps the
document with the current clock and advances it, standing in for `Date.now`
and the schema's `timestamps`.

Ids are natural numbers, so the model has no malformed id. The profile read and
the single-post, delete, like, comment and connect routes answer a malformed id
with 404 in their `error.kind === 'ObjectId'` branch. They answer an id that
resolves to nothing with 404 as well, so the model's NotFound covers both. The
user-posts route is the exception (see "Left out").

Text is measured two ways:

- The request validators' `isLength` counts characters. A surrogate pair counts
  once, and the presentation selectors U+FE0E and U+FE0F are not counted
  (`Text.ValidatorLength`).
- The schema's `maxlength` counts UTF-16 code units, so a character outside the
  Basic Multilingual Plane counts twice (`Text.Utf16Length`).

Text that passes the route but not the schema makes the save throw, and the
handler answers 500 (`ServerError`).

## Model

| member | source | states |
|---|---|---|
| Posts.CreatePost | backend/routes/posts.js:12-39 | Validation exactly when the content is empty or over 1000 by the validator's count. ServerError exactly when it passes that but exceeds 1000 UTF-16 code units, the schema's limit (backend/models/Post.js:7). Ok exactly when the schema accepts the content. Then a post by the caller with that content, no likes and no comments, created and updated at the save time, is stored under an id that no stored post of a valid store has. Every other post and every user is unchanged. |
| Posts.CreatePostPreservesValid | backend/models/Post.js:3-37 | Creating a post keeps every stored post within the schema's constraints, and keeps the store invariant. |
| Posts.CreatedPostIsNewest | backend/models/Post.js:36 | The created post's id is fresh, and its creation time is strictly later than every stored post's. |
| Posts.ReadCreatedPost | backend/routes/posts.js:63-74 | Reading the post back under the answered id gives the answered post. |
| Posts.Feed | backend/routes/posts.js:45-53 | Newest first. Every stored post is listed exactly once, and nothing else is. |
| Posts.FeedListsPosts | backend/routes/posts.js:47-51 | An entry is in the feed exactly when it is a stored (id, post) pair. |
| Posts.CreatedPostLeadsFeed | backend/routes/posts.js:47-51 | After a create, the new post heads the feed. |
| Posts.FeedOfOne | backend/routes/posts.js:47-51 | With one stored post, the feed is that post alone. |
| Posts.FeedOfNone | backend/routes/posts.js:47-51 | With no stored post, the feed is empty. |
| Posts.GetPost | backend/routes/posts.js:63-74 | Ok exactly when the id is stored, with the stored post. NotFound otherwise. |
| Posts.DeletePost | backend/routes/posts.js:87-101 | NotFound for an unknown id. Unauthorized when the caller is not the author. Otherwise only that post is removed, and the users, clock and id counter are unchanged. |
| Posts.DeletePostPreservesValid | backend/routes/posts.js:100 | Deleting keeps the store invariant. |
| Posts.DeletedPostIsGone | backend/routes/posts.js:89-101 | After a delete, a second delete and a read are NotFound. The feed no longer lists the post and still lists every other post. |
| Posts.ToggleLikeList | backend/routes/posts.js:122-131 | A user not listed is appended. A listed user loses exactly the first entry naming them: the result is the array with that index spliced out, and the multiset loses one copy. A duplicate-free array stays duplicate-free. |
| Posts.ToggleLike | backend/routes/posts.js:114-136 | NotFound for an unknown post, Ok otherwise. The post's `likes` becomes exactly `ToggleLikeList` of the old array and the caller: appended when absent, otherwise the first entry naming the caller spliced out with the rest in order. Only `likes` and `updatedAt` change. Every other post and every user is unchanged. |
| Posts.ToggleLikeListTwiceFromAbsent | backend/routes/posts.js:123-131 | Like then unlike, starting without the user, gives back exactly the original array. |
| Posts.ToggleLikeListTwiceMembership | backend/routes/posts.js:123-131 | On a duplicate-free array, two toggles restore exactly who has liked. |
| Posts.ToggleLikeListTwiceWithDuplicate | backend/routes/posts.js:123-131 | With two entries for the same user, two toggles remove both. So the membership round trip needs the duplicate-free invariant. |
| Posts.ToggleLikeListStep | backend/routes/posts.js:123-131 | One toggle takes one copy of the user away when present, and adds one when absent. |
| Posts.ToggleLikeListParity | backend/routes/posts.js:123-131 | Along any run of such steps, starting without the user: after n steps the user is listed n mod 2 times, and nobody else's entries change. |
| Posts.RepeatedLikes | backend/routes/posts.js:123-131 | After n actual toggles by a user who had not liked the post: listed once when n is odd, absent when even. Other likes are unchanged. |
| Posts.ToggleLikeTwice | backend/routes/posts.js:114-133 | Two like requests by the same caller change only that post's `likes` and `updatedAt`. Membership is restored, and the array itself is restored when the caller had not liked the post. |
| Posts.ToggleLikePreservesValid | backend/routes/posts.js:123-133 | The like toggle keeps the store invariant. |
| Posts.AddComment | backend/routes/posts.js:149-181 | The text is validated before the post is looked up: Validation when empty or over 500 by the validator's count, then NotFound. Then ServerError when the text exceeds 500 UTF-16 code units, the schema's limit (backend/models/Post.js:28). Otherwise the new comment (caller, text, save time) is put in front of the post's comments. Only `comments` and `updatedAt` change. |
| Posts.AddCommentPreservesValid | backend/routes/posts.js:166-172 | Adding a comment keeps the comments newest first and the store invariant. |
| Posts.CommentsNewestFirst | backend/routes/posts.js:171 | Two comments in a row give [second, first] followed by the older comments. |
| Users.GetProfile | backend/routes/users.js:12-23 | Ok exactly when the user exists, with every field but the password hash. NotFound otherwise. |
| Users.UserPosts | backend/routes/users.js:36-44 | Newest first. Every stored post by the author is listed exactly once, and nothing else is. An unknown author gets an empty list, not an error. |
| Users.UserPostsFromFeed | backend/routes/users.js:38-42 | A user's posts are exactly the feed entries written by that user. |
| Users.UpdateProfile | backend/routes/users.js:57-82 | Validation when the name is empty or a bio over 500 by the validator's count is sent. Then NotFound for an unknown caller. Otherwise the name is set, and the bio only when sent. Every other field, every other user and the posts are unchanged. |
| Users.ProfileAfterUpdate | backend/routes/users.js:75-80 | After an update, the profile read shows the new name and the new or the kept bio. |
| Users.UpdateProfileIdempotent | backend/routes/users.js:75-80 | Repeating the same update changes nothing further and gives the same answer. |
| Users.UpdateProfilePreservesValid | backend/routes/users.js:75-80 | A profile update keeps the users collection valid. |
| Users.ToggleSide | backend/routes/users.js:109-121 | When the entry was listed, the list becomes `DropAll` of it: every copy leaves, and the rest keep their order (Lists.DropAllConcat, Lists.DropAllSingle). Otherwise it is pushed. Membership is stated both ways. |
| Users.ToggleSideNoDup | backend/routes/users.js:109-121 | Toggling a duplicate-free list on the entry's presence keeps it duplicate-free. |
| Users.Link | backend/routes/users.js:105-131 | Toggles the caller's `connections` and the target's `followers` on whether the caller listed the target. The answer carries the caller's new record and the negated previous state. Nothing else changes. |
| Users.Connect | backend/routes/users.js:92-133 | NotFound for an unknown target, checked first. Then SelfConnect. Then ServerError for a caller without a record. Otherwise the toggle above. |
| Users.ConnectPreservesValid | backend/routes/users.js:109-123 | Connect keeps the users collection valid. Lists stay duplicate-free, free of their owner and of unknown ids, and both sides stay mirrored. |
| Users.LinkKeepsMirror | backend/routes/users.js:109-121 | After the toggle, the caller lists the target exactly when the target lists the caller as a follower. Every other pair is as before. |
| Users.ConnectTwice | backend/routes/users.js:106-131 | Two connects in a row answer connected and then not, or the reverse. Both lists regain exactly their members. The whole users collection is restored when the caller did not follow the target. |
| Users.LinkUndone | backend/routes/users.js:109-121 | Follow then unfollow restores every user record exactly. |
| Users.ConnectionStatus | backend/routes/users.js:146-151 | Ok exactly when the caller has a record, and then true exactly when the caller lists the target. ServerError otherwise. The target is not looked up. |
| Users.StatusAfterConnect | backend/routes/users.js:129-151 | After a connect, the status read reports what the connect answered. |
| Users.StatusOfUnknownTarget | backend/routes/users.js:97-151 | For an unknown target, the status read says "not connected" while the connect toggle answers NotFound. |
| Users.Ranked | backend/routes/users.js:166-178 | The matching users, each exactly once with its stored record, newest registered first. |
| Users.TopMatches | backend/routes/users.js:175-178 | At most 20 matching users, newest registered first, none twice. A matching user is left out only when 20 users registered no earlier are listed. |
| Users.Search | backend/routes/users.js:161-180 | The same answer as summaries (id, name, email, bio, createdAt) without the password hash. Each summary is the stored user's. |
| Users.SearchSize | backend/routes/users.js:175-178 | The search returns exactly min(number of matching users, 20) users. |
| Lists.FindIndex | backend/routes/posts.js:123 | -1 exactly when absent. Otherwise the index of the first occurrence. |
| Lists.RemoveAt | backend/routes/posts.js:127 | `splice(i, 1)`: one element shorter, the elements before `i` kept, those after shifted down, and one copy of `s[i]` gone. |
| Lists.DropAll | backend/routes/users.js:111-116 | `filter(id => id !== x)`: every copy of `x` gone, and all other copies kept. A list without `x` comes back unchanged. |
| Lists.DropAllConcat | backend/routes/users.js:111-116 | Filtering a concatenation filters each part and keeps the parts in order. With DropAllSingle this fixes the result entry by entry, in the original order. |
| Lists.DropAllSingle | backend/routes/users.js:111-116 | A one-entry list loses its entry exactly when it is `x`. |
| Lists.DropAllAfterAppend | backend/routes/users.js:109-121 | Filtering `x` out of a list without `x` after pushing `x` gives back the list. |
| Ordering.SortDesc | backend/routes/posts.js:51 | A permutation of the input, ordered by descending key. |
| Ordering.Take | backend/routes/users.js:177 | `limit(n)`: the first n elements, or all when fewer. |
| Text.Utf16LengthExtremes | backend/models/Post.js:7 | The schema's length of a text is its number of characters exactly when none lies outside the Basic Multilingual Plane, and twice that exactly when all do. |
| Text.ValidatorLengthExtremes | backend/routes/posts.js:15 | The validator's length of a text is its number of characters exactly when it holds no presentation selector, and 0 exactly when it holds nothing else. |
| Text.LengthsOfConcat | backend/models/Post.js:28 | Both lengths add up over a concatenation. |
| Text.ContainsIgnoringCase | backend/routes/users.js:169-170 | True exactly when the lower-cased query occurs contiguously in the lower-cased text. |
| Text.MatchIgnoresCase | backend/routes/users.js:169-170 | The match does not depend on the case of the text or of the query. |
| Scenarios.CreateScenario | backend/routes/posts.js:12-35 | A's first post is stored under id 0, stamped with the clock, and sent back. |
| Scenarios.LikeScenario | backend/routes/posts.js:114-136 | B likes the post (`likes` = [B]) and unlikes it (`likes` = []). Each answer is the saved post, with `updatedAt` set to the save time. |
| Scenarios.CommentScenario | backend/routes/posts.js:149-172 | B's comment "Nice" becomes the post's only comment, stamped with the save time. |
| Scenarios.DeleteScenario | backend/routes/posts.js:87-101 | Delete by a non-author is Unauthorized. By the author it succeeds, and the post then reads as NotFound. |
| Scenarios.SchemaLengthScenario | backend/routes/posts.js:12-39 | A comment of 500 emoji and a post of 501 emoji pass the route but exceed the schema's UTF-16 limit: ServerError. So does content of 1001 presentation selectors. A comment of 250 emoji is accepted. |
| Scenarios.FeedScenario | backend/routes/posts.js:45-101 | After the first post the feed is that post alone. After its delete the feed is empty, and a second delete is NotFound. |
| Scenarios.ContentLengthBoundary | backend/routes/posts.js:14-15 | Content of 1000 ASCII characters is accepted. 1001 characters and empty content are refused. |
| Scenarios.CommentLengthBoundary | backend/routes/posts.js:151-164 | A comment of 500 ASCII characters is accepted and 501 refused, before the post lookup. |
| Scenarios.ConnectScenario | backend/routes/users.js:94-151 | A follows B: A.connections = [B], B.followers = [A], status true. Again: both users as before, status false. Self-connection, an unknown target and an unknown caller are refused. |
| Scenarios.UpdateProfileScenario | backend/routes/users.js:59-78 | An update without a bio keeps the bio. An empty name is refused, and an unknown caller is NotFound. |

## Left out

- The HTTP layer: status codes and response messages are reduced to `ApiError`, and the `message` field of the connect answer is dropped.
- The authentication middleware: the caller's id is a parameter.
- `populate`: references stay ids. The model does not resolve them to name/email records or tolerate dangling ones.
- The `trim()` sanitizers: validation is modelled as "non-empty and within the limit" on the text as sent.
  - Trimming is not modelled.
  - Nor is the interaction of trimming with the schema's `required`, for whitespace-only input.
- The search regex: the query is a literal string.
  - Regular-expression metacharacters are not modelled.
  - Case is folded only for ASCII A-Z, not by Unicode rules.
- Store failures: the 500 answer to a failed save or query is not modelled. The exceptions are the connect and status routes' failure on a caller without a record, and a save whose text the schema's length limit refuses (`ServerError`).
- Text.ValidatorLength: follows the `isLength` of the validator.js library behind express-validator. That library is not part of this model.
- Posts.AddComment: only the new comment's text is measured on save. The content and the older comments were measured when they were saved, and the store invariant keeps them within the limits.
- Concurrency: each request runs alone.
  - The two saves of `Promise.all` in the connect route are one atomic step here.
  - Interleaved like requests, which could leave duplicates, are not modelled (see `Posts.ToggleLikeListTwiceWithDuplicate`).
- `Date.now` is the store clock, and every save advances it by one. Ties between equal timestamps cannot arise from the routes in the model.
- The order among posts or users with equal `createdAt` is left open: the listing contracts state only descending order.
- The `isFollower` value the connect route computes but never uses.
- The `author, createdAt` index of the Post schema: it affects performance only.
- The User model is not part of this model.
  - Users carry the fields the routes read and write.
  - Any check its schema makes on the name on save is not modelled.
  - Users.Link: the answer carries the caller's whole record, including the password hash, because the User model's serialization is not visible.
- Users.Connect: a caller without a record who names their own id gets NotFound, not the self-connection refusal. The code looks up the target before it compares the two ids (backend/routes/users.js:94-103).
- Users.Connect: each id has one spelling here. In the code, `findById` casts the id, so it accepts other spellings of the same ObjectId, such as upper-case hex. The self-connection check at backend/routes/users.js:101 and the `filter` at users.js:111-116 compare raw strings. A caller who names their own id in another spelling passes the self-connection check and is pushed into their own `connections` and `followers`. The model cannot express this, so Users.ConnectPreservesValid's "never the owner" clause holds only because ids have one spelling. The `includes` calls at users.js:106 and :149 and the author check at backend/routes/posts.js:96 compare raw strings too.
- Users.UserPosts: a malformed id makes `Post.find({ author })` fail its cast, and the route answers 404 (backend/routes/users.js:47-49). The model has no malformed id, so that 404 is missing. A well-formed id of no user gets `[]`.
- Users.UpdateProfile: the bio is measured only by the route's validator. Any limit the User schema sets is not part of this model.
- Users.ConnectTwice: restores the users collection exactly only when the caller did not already follow the target. In the other case the target goes back to the end of `connections` and the caller to the end of `followers`, so only membership is restored.
- Posts.ToggleLikeListTwiceMembership: needs a duplicate-free `likes` array, which the store invariant provides.
- Lists.Entries: lists a collection's documents in ascending id order. Its contract states only that each stored entry occurs exactly once; the listings re-sort it.
- The frontend, registration and login.
