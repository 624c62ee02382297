# Social graph core, modelled in Dafny

This project models the server functions of a small photo-sharing app.
They run on a document store: users, posts, likes, comments, follows and
direct messages. The model covers every handler in `convex/likes.ts`,
`convex/follows.ts`, `convex/posts.ts`, `convex/comments.ts`,
`convex/messages.ts` and `convex/users.ts`.

The store is the value `Database.Tables`. It holds one map per table and a
clock that issues ids in creation order, so creation order is id order.
Each mutation is modelled twice:

- a pure step function (`ToggleLikeStep`, `DeletePostStep`, …) maps the
  tables and the caller to the new tables and what the handler returns or
  throws;
- a method on the store object `Database.Store` performs the same writes
  step by step, in the handler's order, under `modifies db`. Its contract
  ties the new state and the result to the step function.

Two invariants describe the store:

- `Tables.Valid()` is the shape every mutation preserves. Every row id was
  issued before the clock, and so were the references `posts.authorId`,
  `likes.postId`, `comments.postId` and both ends of a follow; the other
  references (a like's or comment's user, a message's ends) are not
  constrained. At most one like exists per (post, user) and at most one
  follow per (follower, followee): `toggleLike` and `toggleFollow` look the
  pair up before inserting, and the `.unique()` lookups rely on it.
- `Tables.Consistent()` covers the cached counters and the graph rules:
  - `likesCount` and `commentsCount` of each post equal the number of rows
    pointing at it;
  - `postsCount`, `followersCount` and `followingCount` of each user equal
    the number of rows pointing at them;
  - no user follows themself;
  - every like belongs to an existing post.

Every mutation keeps `Valid`, and keeps `Consistent` when it held before.
The cascade in `deletePost` leaves no like and no comment of the deleted
post behind. `addComment` does not check that the post exists, so it can
create a comment on a post that is gone (`Comments.InsertCommentOrphan`).
For that reason "every comment belongs to a post" is not part of
`Consistent`.

Queries are functions of the tables and the caller. The `.query(table)`
pipeline is modelled in module `Query`: `Scan` lists a table oldest first,
`.order("desc")` is `Reverse`, `.filter` is `Where`, and `.take(n)` and
`.slice(0, n)` are `Take`.

## Model

| member | source | states |
|---|---|---|
| Counters.Incremented | convex/likes.ts:35 | `(c \|\| 0) + 1` is one more than the counter, an unset counter reading as zero |
| Counters.Decremented | convex/likes.ts:25 | `Math.max(0, (c \|\| 1) - 1)` is one less than a positive counter and zero for a zero or unset one |
| Counters.DecrementUndoesIncrement | convex/follows.ts:44-51 | counting up and then down restores the counter |
| Counters.IncrementUndoesDecrement | convex/follows.ts:29-35 | counting a positive counter down and then up restores it |
| Query.Scan | convex/posts.ts:42-43 | a table scan lists exactly the issued rows, each once, oldest first |
| Query.Where | convex/posts.ts:45 | `.filter` keeps exactly the documents that pass, never more than it was given |
| Query.WhereAscending | convex/messages.ts:33-46 | filtering an oldest-first list keeps it oldest first |
| Query.WhereDescending | convex/posts.ts:44-45 | filtering a newest-first list keeps it newest first |
| Query.Select | convex/users.ts:99-103 | a filtered scan holds exactly the issued rows that pass the filter, oldest first |
| Query.Reverse | convex/posts.ts:44 | `.order("desc")` is the scan read from the end |
| Query.ReverseOfAscending | convex/posts.ts:44 | reversing an oldest-first list gives a newest-first list |
| Query.ReverseMembers | convex/posts.ts:44 | reversing keeps exactly the same documents |
| Query.Take | convex/posts.ts:46 | `.take(n)` is the prefix of length `min(n, length)` |
| Query.TakeMembers | convex/users.ts:87 | whatever `.take`/`.slice` keeps was in the list |
| Query.TakeNewest | convex/posts.ts:46 | a document a newest-first `.take(n)` drops is older than all `n` documents kept |
| Query.Lookup | convex/likes.ts:45-48 | an index lookup lists exactly the rows with that key, oldest first |
| Query.LookupCount | convex/likes.ts:45-48 | an index lookup lists each row with that key once, so its length is the number of such rows |
| Query.Except | convex/posts.ts:148-164 | deleting every row with a key leaves no row with that key and every row with another key |
| Query.HavingInsert | convex/likes.ts:30-33 | inserting a row adds its id to the rows with its key and to no other key |
| Query.HavingRemove | convex/likes.ts:23 | deleting a row removes its id from the rows with its key |
| Query.HavingPatch | convex/likes.ts:24-26 | a patch that keeps a row's key changes no index lookup |
| Query.IdsOfSnoc | convex/posts.ts:158-164 | each loop iteration deletes one more listed id |
| Query.IdsOfCons | convex/likes.ts:45-48 | the ids of a list are its first id and the ids of the rest |
| Query.AscendingCount | convex/likes.ts:45-48 | a list with strictly increasing ids has as many ids as entries |
| Text.TrimStartEmpty | convex/posts.ts:81 | trimming the start empties a string exactly when it is all white space |
| Text.TrimEndKeepsHead | convex/posts.ts:81 | trimming the end keeps a non-space first character |
| Text.TrimmedEmpty | convex/users.ts:54 | `query.trim()` is empty exactly when every character is white space |
| Text.PrefixRange | convex/users.ts:66-70 | `lo <= name < lo + "￿"` holds exactly when `lo` is a prefix of `name` and the next character, if any, is below U+FFFF |
| Database.FindRow | convex/likes.ts:11-16 | a `.unique()` lookup finds a row holding the record, or reports that no issued row holds it |
| Database.ValuesInsert | convex/follows.ts:39-42 | an insert adds its record to the table's contents |
| Database.ValuesRemove | convex/follows.ts:26 | deleting a row removes its record from the contents when records are unique |
| Database.RegisterValid | convex/schema.ts:6-19 | a new blank profile gets a fresh id and keeps the store valid |
| Database.NewUserCounted | convex/schema.ts:17-19 | a blank profile has zero followers, following and posts, which matches the rows |
| Database.RegisterConsistent | convex/schema.ts:6-19 | signing up keeps every counter equal to its row count |
| Database.CommentsCountedFrame | convex/likes.ts:24-36 | the two `likesCount` patches of toggleLike leave `commentsCount` alone, so the comment counters stay equal to the comment rows |
| Database.LikesCountedFrame | convex/comments.ts:24-26 | the `commentsCount` patches of addComment (here) and deleteComment (comments.ts:72-74) leave `likesCount` alone, so the like counters stay equal to the like rows |
| Database.PostsCountedPatch | convex/schema.ts:28-36 | a patch that keeps a post's author keeps every `postsCount` correct |
| Database.PostsCountedFrame | convex/follows.ts:28-51 | the four follow-counter patches of toggleFollow (and the profile patch, users.ts:138) leave `postsCount` alone, so it stays equal to the by_author rows |
| Database.FollowsCountedFrame | convex/users.ts:138 | a patch that leaves `followersCount` and `followingCount` alone (the profile patch here, the `postsCount` patch of post creation and deletion) keeps the follow counters equal to the follow rows |
| Database.Store.constructor | convex/schema.ts:102-105 | an empty store is valid and consistent |
| Database.Store.NewId | convex/posts.ts:15 | an insert takes the next id from the clock and changes nothing else |
| Database.Store.Register | convex/schema.ts:6-19 | sign-up adds a blank profile, as `RegisterStep` says, and keeps both invariants |
| Likes.FindLike | convex/likes.ts:11-16 | the `by_post_and_user` lookup returns a like row of that user on that post, or none exists |
| Likes.FindLikeFinds | convex/likes.ts:11-16 | in a valid store the lookup finds a like exactly when the user likes the post |
| Likes.UnlikeEffect | convex/likes.ts:21-27 | unliking removes exactly that like and counts the post's likes down, keeping the store valid |
| Likes.AddLikeEffect | convex/likes.ts:28-37 | liking adds exactly that like and counts the post's likes up, keeping the store valid |
| Likes.UnlikeFrame | convex/likes.ts:23-26 | unliking changes only the like table and the post's `likesCount` |
| Likes.AddLikeFrame | convex/likes.ts:30-36 | liking changes only the like table, the clock and the post's `likesCount` |
| Likes.UnlikeCounted | convex/likes.ts:23-26 | deleting a like and counting down keeps every `likesCount` equal to its rows |
| Likes.AddLikeCounted | convex/likes.ts:30-36 | inserting a like and counting up keeps every `likesCount` equal to its rows |
| Likes.UnlikeKeepsConsistent | convex/likes.ts:21-27 | the unlike branch keeps the store consistent |
| Likes.AddLikeKeepsConsistent | convex/likes.ts:28-37 | the like branch keeps the store consistent |
| Likes.ToggleLikeFails | convex/likes.ts:8-19 | `toggleLike` throws exactly without a caller ("Not authenticated") or without the post ("Post not found"), and writes nothing then |
| Likes.ToggleLikeFlips | convex/likes.ts:21-38 | `toggleLike` returns whether the user now likes the post, flips that like, and moves `likesCount` by one in the matching direction |
| Likes.ToggleLikeKeeps | convex/likes.ts:5-40 | `toggleLike` keeps the store valid, and consistent when it was |
| Likes.ToggleLikeTwice | convex/likes.ts:21-38 | toggling twice restores the set of likes |
| Likes.ToggleLikeTwiceCount | convex/likes.ts:21-38 | toggling twice restores the post's `likesCount` |
| Likes.WithUsers | convex/likes.ts:50-61 | each like comes with its user's profile, or nothing when the profile is gone |
| Likes.GetPostLikes | convex/likes.ts:42-63 | `getPostLikes` lists one entry per like of the post |
| Likes.PostLikesListed | convex/likes.ts:45-61 | every entry is a stored like of that post with its user, oldest first |
| Likes.LikesCountMatchesList | convex/likes.ts:42-63 | in a consistent store the list is as long as the post's `likesCount` |
| Likes.ToggleLike | convex/likes.ts:5-40 | the handler's writes produce the state and result of `ToggleLikeStep` and keep both invariants |
| Follows.FindFollow | convex/follows.ts:12-17 | the `by_follower_and_following` lookup returns an edge between the two users, or none exists |
| Follows.FindFollowFinds | convex/follows.ts:12-17 | in a valid store the lookup finds an edge exactly when one user follows the other |
| Follows.UnfollowEffect | convex/follows.ts:24-36 | unfollowing removes exactly that edge and counts both users down, keeping the store valid |
| Follows.AddFollowEffect | convex/follows.ts:37-53 | following adds exactly that edge and counts both users up, keeping the store valid |
| Follows.UnfollowFrame | convex/follows.ts:26-34 | unfollowing changes only the follow table and the two users' counters |
| Follows.AddFollowFrame | convex/follows.ts:39-50 | following changes only the follow table, the clock and the two users' counters |
| Follows.UnfollowCounted | convex/follows.ts:26-34 | deleting an edge and counting both ends down keeps every follow counter equal to its rows |
| Follows.AddFollowCounted | convex/follows.ts:39-50 | inserting an edge and counting both ends up keeps every follow counter equal to its rows |
| Follows.UnfollowKeepsConsistent | convex/follows.ts:24-36 | the unfollow branch keeps the store consistent |
| Follows.AddFollowKeepsConsistent | convex/follows.ts:37-53 | the follow branch keeps the store consistent and adds no self-follow |
| Follows.ToggleFollowFails | convex/follows.ts:8-22 | `toggleFollow` throws exactly without a caller, on oneself ("Cannot follow yourself") or when either profile is gone ("User not found"), and writes nothing then |
| Follows.ToggleFollowFlips | convex/follows.ts:24-53 | `toggleFollow` returns whether the caller now follows the target, flips that edge, and moves both counters by one in the matching direction |
| Follows.ToggleFollowKeeps | convex/follows.ts:5-55 | `toggleFollow` keeps the store valid, and consistent when it was |
| Follows.ToggleFollowTwice | convex/follows.ts:24-53 | toggling twice restores the set of edges |
| Follows.ToggleFollowUsers | convex/follows.ts:28-50 | toggling adds and removes no profile |
| Follows.FollowedCountsPositive | convex/follows.ts:28-34 | in a consistent store an existing edge makes both ends' counters positive, so the unfollow branch never floors at zero |
| Follows.ToggleFollowTwiceCounts | convex/follows.ts:24-53 | toggling twice restores both users' counters |
| Follows.FollowerProfiles | convex/follows.ts:65-72 | each edge is mapped to its follower's profile, in order |
| Follows.FollowingProfiles | convex/follows.ts:85-92 | each edge is mapped to its followee's profile, in order |
| Follows.GetFollowers | convex/follows.ts:57-75 | `getFollowers` lists one entry per edge into the user |
| Follows.GetFollowing | convex/follows.ts:77-95 | `getFollowing` lists one entry per edge out of the user |
| Follows.FollowersSound | convex/follows.ts:57-75 | every listed follower is a stored profile that follows the user |
| Follows.FollowersComplete | convex/follows.ts:57-75 | every stored profile that follows the user is listed |
| Follows.FollowingSound | convex/follows.ts:77-95 | every listed profile is stored and followed by the user |
| Follows.FollowingComplete | convex/follows.ts:77-95 | every stored profile the user follows is listed |
| Follows.FollowCountsMatchLists | convex/follows.ts:57-95 | in a consistent store the two lists are as long as `followersCount` and `followingCount` |
| Follows.IsFollowing | convex/follows.ts:97-112 | `isFollowing` is true exactly when a caller is signed in and follows the user |
| Follows.ToggleFollow | convex/follows.ts:5-55 | the handler's writes produce the state and result of `ToggleFollowStep` and keep both invariants |
| Posts.CreatePostFails | convex/posts.ts:12-13 | `createPost` throws only without a caller, and then writes nothing |
| Posts.NewPostFields | convex/posts.ts:15-22 | a new post has the caller as author, the given image and caption, zero likes and comments, and is public unless `isPublic` is `false` |
| Posts.AddPostValid | convex/posts.ts:15-30 | inserting a post keeps the store valid |
| Posts.AddPostEffect | convex/posts.ts:15-30 | the new post gets the next id and is the only new post; an existing author's `postsCount` goes up by one |
| Posts.AddPostFrame | convex/posts.ts:25-30 | creating a post changes only the post table, the clock and the author's `postsCount` |
| Posts.AddPostCounted | convex/posts.ts:15-30 | inserting a post and counting its author up keeps every `postsCount` correct |
| Posts.NewPostCounted | convex/posts.ts:19-20 | a post with zero counters and no rows keeps like and comment counters correct |
| Posts.AddPostKeepsConsistent | convex/posts.ts:15-30 | creating a post keeps the store consistent |
| Posts.CreatePostKeeps | convex/posts.ts:5-34 | `createPost` keeps the store valid, and consistent when it was |
| Posts.DeletePostFails | convex/posts.ts:140-145 | `deletePost` throws exactly without a caller, without the post, or for someone else's post, and writes nothing then; it returns `true` otherwise |
| Posts.RemovePostEffect | convex/posts.ts:147-174 | the delete removes the post and every like and comment on it, keeps every other row and post, and counts the author down |
| Posts.RemovePostFrame | convex/posts.ts:166-174 | the delete changes no profile but the author's `postsCount` and touches no follow or message |
| Posts.RemovePostCounted | convex/posts.ts:166-174 | removing a post and counting its author down keeps every `postsCount` correct |
| Posts.RemovePostRowsCounted | convex/posts.ts:148-166 | after the cascade every remaining post's counters still match, and every remaining like has its post |
| Posts.RemovePostKeepsConsistent | convex/posts.ts:147-174 | the delete keeps the store consistent |
| Posts.DeletePostKeeps | convex/posts.ts:137-178 | `deletePost` keeps the store valid, and consistent when it was |
| Posts.PublicPosts | convex/posts.ts:42-45 | the public posts, newest first, are exactly the stored posts with `isPublic` true |
| Posts.FeedPosts | convex/posts.ts:42-46 | the feed holds at most 50 posts |
| Posts.FeedPostsListed | convex/posts.ts:42-46 | the feed is newest first and holds only stored public posts |
| Posts.FeedPostsNewest | convex/posts.ts:42-46 | a public post missing from the feed means the feed is full and every post in it is newer |
| Posts.FeedItems | convex/posts.ts:48-74 | each feed entry carries its post, its author's profile and `isLiked` from the like lookup |
| Posts.GetFeed | convex/posts.ts:36-76 | `getFeed` returns at most 50 entries |
| Posts.FeedLiked | convex/posts.ts:53-62 | `isLiked` is true exactly when a caller is signed in and likes that post |
| Posts.SearchPosts | convex/posts.ts:78-96 | the search returns at most 20 public posts, all taken from the search index's hits |
| Posts.SearchBlank | convex/posts.ts:81 | a blank query returns nothing |
| Posts.SearchComplete | convex/posts.ts:83-87 | a public hit is left out only when 20 results were already taken |
| Posts.GetUserPosts | convex/posts.ts:98-114 | `getUserPosts` lists exactly the user's posts, newest first |
| Posts.GetMyPosts | convex/posts.ts:116-135 | `getMyPosts` lists exactly the caller's posts, and nothing without a caller |
| Posts.PostsCountMatchesList | convex/posts.ts:98-114 | in a consistent store the list is as long as `postsCount` |
| Posts.CreatePost | convex/posts.ts:5-34 | the handler's writes produce the state and result of `CreatePostStep` and keep both invariants |
| Posts.DeleteLikes | convex/posts.ts:158-160 | the loop deletes exactly the listed likes and nothing else |
| Posts.DeleteComments | convex/posts.ts:162-164 | the loop deletes exactly the listed comments and nothing else |
| Posts.DeletePost | convex/posts.ts:137-178 | the handler's writes produce the state and result of `DeletePostStep` and keep both invariants |
| Comments.AddCommentFails | convex/comments.ts:11-12 | `addComment` throws only without a caller, and then writes nothing |
| Comments.InsertCommentEffect | convex/comments.ts:14-29 | the comment gets the next id with zero likes, and only its post's `commentsCount` goes up |
| Comments.InsertCommentOrphan | convex/comments.ts:14-27 | on a missing post the comment is still inserted and no post changes |
| Comments.InsertCommentCounted | convex/comments.ts:14-27 | inserting a comment, and counting up when the post exists, keeps every `commentsCount` correct |
| Comments.InsertCommentKeepsConsistent | convex/comments.ts:14-27 | adding a comment keeps the store consistent |
| Comments.AddCommentKeeps | convex/comments.ts:5-31 | `addComment` keeps the store valid, and consistent when it was |
| Comments.DeleteCommentFails | convex/comments.ts:60-65 | `deleteComment` throws exactly without a caller, without the comment, or for someone else's comment, and writes nothing then; it returns `true` otherwise |
| Comments.RemoveCommentEffect | convex/comments.ts:67-75 | the delete removes exactly that comment and counts down only its post |
| Comments.RemoveCommentCounted | convex/comments.ts:67-75 | deleting a comment and counting down keeps every `commentsCount` correct |
| Comments.RemoveCommentKeepsConsistent | convex/comments.ts:67-75 | deleting a comment keeps the store consistent |
| Comments.DeleteCommentKeeps | convex/comments.ts:57-79 | `deleteComment` keeps the store valid, and consistent when it was |
| Comments.AddThenDelete | convex/comments.ts:5-79 | adding a comment and then deleting it restores the comments and the post's `commentsCount` |
| Comments.WithAuthors | convex/comments.ts:42-53 | each comment comes with its author's profile, in order |
| Comments.PostComments | convex/comments.ts:36-40 | the post's comments, newest first, are exactly the stored comments on it |
| Comments.GetPostComments | convex/comments.ts:33-55 | `getPostComments` lists one entry per comment on the post |
| Comments.PostCommentsListed | convex/comments.ts:33-55 | every entry is a stored comment on that post with its author, newest first |
| Comments.PostCommentsComplete | convex/comments.ts:33-55 | every stored comment on the post is listed |
| Comments.CommentsCountMatchesList | convex/comments.ts:33-55 | in a consistent store the list is as long as the post's `commentsCount` |
| Comments.AddComment | convex/comments.ts:5-31 | the handler's writes produce the state and result of `AddCommentStep` and keep both invariants |
| Comments.DeleteComment | convex/comments.ts:57-79 | the handler's writes produce the state and result of `DeleteCommentStep` and keep both invariants |
| Messages.SendMessageFails | convex/messages.ts:11-12 | `sendMessage` throws only without a caller, and then writes nothing |
| Messages.InsertMessageEffect | convex/messages.ts:14-21 | the message gets the next id, sender, receiver and content as given, is unread, and nothing else changes |
| Messages.SendMessageKeeps | convex/messages.ts:5-23 | `sendMessage` keeps the store valid, and consistent when it was |
| Messages.MarkAsReadFails | convex/messages.ts:103-108 | `markAsRead` throws exactly without a caller, without the message, or when the caller is not its receiver, and writes nothing then |
| Messages.MarkReadEffect | convex/messages.ts:110 | marking sets `isRead` on that message and changes nothing else |
| Messages.MarkAsReadTwice | convex/messages.ts:100-113 | marking a message read a second time changes nothing and returns the same |
| Messages.MarkAsReadKeeps | convex/messages.ts:100-113 | `markAsRead` keeps the store valid, and consistent when it was |
| Messages.Thread | convex/messages.ts:31-46 | the thread, oldest first, is exactly the stored messages between the two users, either way |
| Messages.FromMe | convex/messages.ts:48-51 | `isFromCurrentUser` is set exactly on the caller's messages |
| Messages.GetMessages | convex/messages.ts:25-53 | `getMessages` returns nothing without a caller |
| Messages.MessagesListed | convex/messages.ts:25-53 | every entry is a stored message between the two users, marked correctly, oldest first |
| Messages.MessagesComplete | convex/messages.ts:25-53 | every stored message between the two users is listed |
| Messages.Involving | convex/messages.ts:62-71 | the caller's messages, newest first, are exactly those the caller sent or received |
| Messages.HasAppend | convex/messages.ts:79 | adding a conversation adds exactly its partner to the grouped partners |
| Messages.ScanSkip | convex/messages.ts:79-80 | skipping a message whose partner is grouped already or has no profile keeps the loop invariant |
| Messages.ScanAdd | convex/messages.ts:80-89 | grouping a new partner with its message keeps the loop invariant |
| Messages.ScanDone | convex/messages.ts:76-96 | after the last message the invariant gives the full grouping property |
| Messages.Group | convex/messages.ts:74-92 | the loop returns one conversation per partner with a profile, carrying the partner's newest message, newest first |
| Messages.GetConversations | convex/messages.ts:55-98 | `getConversations` returns nothing without a caller and otherwise the grouping of the caller's messages |
| Messages.SendMessage | convex/messages.ts:5-23 | the handler's writes produce the state and result of `SendMessageStep` and keep both invariants |
| Messages.MarkAsRead | convex/messages.ts:100-113 | the handler's writes produce the state and result of `MarkAsReadStep` and keep both invariants |
| Users.GetCurrentUser | convex/users.ts:5-19 | the caller's profile; nothing when no one is signed in or the profile is gone |
| Users.GetUserById | convex/users.ts:38-49 | the profile with that id, or nothing when there is none |
| Users.WithUsername | convex/users.ts:24-27 | the `by_username` lookup lists exactly the profiles with that username |
| Users.WithUsernameFinds | convex/users.ts:24-27 | in a valid store every profile with that username is found |
| Users.GetUserByUsername | convex/users.ts:21-36 | a profile it returns is stored and has that username |
| Users.UserByUsernameMissing | convex/users.ts:24-29 | it returns nothing exactly when no profile has that username |
| Users.TwoMembers | convex/users.ts:27 | two distinct profiles among the lookup's rows make it longer than one, the case in which `.unique()` throws |
| Users.UserByUsernameThrows | convex/users.ts:27 | `.unique()` throws only when two profiles share the username |
| Users.UserByUsernameSharedThrows | convex/users.ts:27 | `.unique()` throws whenever two profiles share the username |
| Users.FindIndex | convex/users.ts:83 | `findIndex` gives the first position holding the id |
| Users.DedupFrom | convex/users.ts:82-84 | each kept entry is the first occurrence of its id, kept in order of first occurrence |
| Users.DedupFromComplete | convex/users.ts:82-84 | every first occurrence from the start position on is kept |
| Users.Dedup | convex/users.ts:82-84 | the deduplicated list holds no id twice, holds for each id exactly the entry at its first occurrence in the input, keeps the order of first occurrences, and misses no id of the input |
| Users.DedupOrdered | convex/users.ts:82-84 | a later position in the deduplicated list never has an earlier first occurrence in the input |
| Users.NameMatches | convex/users.ts:63-71 | the name filter keeps exactly the stored profiles with a name in `[lower(q), lower(q) + "￿")` |
| Users.EmailMatches | convex/users.ts:75-77 | the `by_email` lookup keeps exactly the stored profiles with that email |
| Users.ByName | convex/users.ts:63-72 | the name branch takes at most 10 profiles |
| Users.ByEmail | convex/users.ts:75-78 | the email branch takes at most 5 profiles |
| Users.Merged | convex/users.ts:81 | the three branches together hold at most 25 profiles |
| Users.SearchUsers | convex/users.ts:51-93 | at most 20 results, no id twice, each one the first occurrence of its id among the username, name and email hits, in that order |
| Users.TakeDedupPrecedence | convex/users.ts:81-87 | cutting the deduplicated list keeps every id whose first occurrence precedes that of a kept entry |
| Users.SearchUsersPrecedence | convex/users.ts:81-87 | for a non-blank query, username hits precede name hits precede email hits, the first occurrence wins, and the cut at 20 drops only ids that first occur later than every kept one |
| Users.SearchUsersBlank | convex/users.ts:54 | a query of white space finds no one |
| Users.ByNameMatches | convex/users.ts:63-72 | every name match's name starts with the lower-cased query; fewer than 10 means every such profile |
| Users.ByEmailMatches | convex/users.ts:75-78 | every email match has exactly the query as email; fewer than 5 means every such profile |
| Users.SearchUsersComplete | convex/users.ts:81-87 | with fewer than 20 results every id some branch found is in the result |
| Users.GetAllUsers | convex/users.ts:95-113 | nothing without a caller, otherwise at most 50 profiles |
| Users.AllUsersListed | convex/users.ts:98-104 | the list is oldest first and holds only stored profiles other than the caller's; fewer than 50 means all of them |
| Users.FollowedIds | convex/users.ts:153 | the followed ids are the follow rows' `followingId`, in order |
| Users.ExcludedIds | convex/users.ts:148-154 | the excluded ids are the caller and exactly those the caller follows |
| Users.Unfollowed | convex/users.ts:156-158 | the candidates are exactly the stored profiles not excluded, oldest first |
| Users.GetSuggestedUsers | convex/users.ts:143-170 | nothing without a caller, otherwise at most 5 profiles |
| Users.SuggestedSound | convex/users.ts:146-159 | no suggestion is the caller or someone the caller follows; suggestions are stored profiles, oldest first |
| Users.SuggestedComplete | convex/users.ts:156-159 | fewer than 5 suggestions means every unfollowed other profile is suggested |
| Users.PatchEffect | convex/users.ts:129-138 | for each of name, username, bio, dateOfBirth, website, location and avatar: a given value is written and an absent one keeps the old value; the other fields are kept, the patch is idempotent, and an empty patch changes nothing |
| Users.UpdateProfileEffect | convex/users.ts:126-139 | `updateProfile` throws exactly without a caller or profile and writes nothing then; otherwise it returns the caller's id and patches only the caller's profile |
| Users.UpdateProfileKeeps | convex/users.ts:115-141 | `updateProfile` keeps the store valid, and consistent when it was |
| Users.UpdateProfile | convex/users.ts:115-141 | the handler builds the patch field by field, and its writes produce the state and result of `UpdateProfileStep` |

## Left out

- Authentication is a parameter. The signed-in user's id, or none, is
  passed in, as `getAuthUserId` would return it. A signed-in id is taken
  to be one the store has issued.
- `@convex-dev/auth` creates profiles and fills their fields.
  `Store.Register` adds a blank profile; nothing else of the library is
  modelled.
- File storage is left out: `ctx.storage.getUrl`, `imageUrl`, `avatarUrl`
  and `generateUploadUrl` (`convex/posts.ts:180-185`). Image and avatar ids
  are opaque values.
- The full-text search indexes are parameters:
  - `search_posts` is the `hits` argument of `Posts.SearchPosts`;
  - `search_users` is the `usernameHits` argument of `Users.SearchUsers`.

  Their relevance ranking is not modelled.
- Argument validators such as `v.id("posts")` are modelled as "an id the
  store has issued". Ids carry no table tag, which is why
  `Comments.AddComment` and `Posts.CreatePost` require the id to be below
  the clock.
- The counters are `v.number()` (floating point). The model uses natural
  numbers and `Math.max(0, …)`, so counters never go negative.
- Strings are sequences of `char`. `toLowerCase` lowers ASCII letters only.
  String comparison is by character rather than by UTF-16 code unit; the
  two orders agree on the Basic Multilingual Plane.
- Handlers run one at a time. Concurrent transactions and their retries
  are not modelled.
- `_creationTime` is replaced by the id, because both grow with creation
  order. `Messages.GetConversations` therefore omits the final `.sort`: it
  proves its result is already ordered newest first.
- Queries read the tables as a value rather than the store object, because
  they change nothing. `GetConversations` is a method because of its loop,
  but it too takes the tables as a value.
- The likes and follows `.unique()` lookups cannot throw in the model,
  because `Tables.Valid` keeps those rows unique. `getUserByUsername`'s
  `.unique()` can throw, and is modelled as `Err(NotUnique)`.
- The `stories` and `notifications` tables, and the other files of
  `convex/`, are not part of this model.
- Likes.GetPostLikes, Follows.GetFollowers, Follows.GetFollowing and
  Follows.IsFollowing require `Tables.Valid()`. That is the store's
  invariant, which every mutation keeps. The handlers themselves demand
  nothing of the store.
