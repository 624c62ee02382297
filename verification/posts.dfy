/**
 * Posts (convex/posts.ts): `createPost` inserts a post and counts it on its
 * author, `deletePost` deletes a post with every like and comment on it and
 * counts it off its author; the queries list the public feed, search
 * captions, and list one author's posts.
 */
module Posts {
  import opened Schema
  import opened Counters
  import opened Query
  import opened Text
  import opened Database
  import opened Likes

  /** `isPublic ?? true`: a post is public unless the author said otherwise. */
  function PublicOrDefault(isPublic: Option<bool>): bool {
    if isPublic.Some? then isPublic.value else true
  }

  /** The post `createPost` inserts: no likes and no comments yet. */
  function NewPost(author: Id, imageId: BlobId, caption: Option<string>, isPublic: Option<bool>): Post {
    Post(author, imageId, caption, Some(0), Some(0), Some(PublicOrDefault(isPublic)))
  }

  /** The insert and, when the author's profile exists, one more on its post count. */
  function AddPost(t: Tables, author: Id, imageId: BlobId, caption: Option<string>, isPublic: Option<bool>): Tables {
    t.Issue().(posts := t.posts[t.clock := NewPost(author, imageId, caption, isPublic)],
               users := if author in t.users
                        then t.users[author := t.users[author].(postsCount := Some(Incremented(t.users[author].postsCount)))]
                        else t.users)
  }

  /** `createPost`: what the handler does to the tables and what it returns. */
  function CreatePostStep(t: Tables, caller: Option<Id>, imageId: BlobId, caption: Option<string>, isPublic: Option<bool>): Step<Id> {
    if caller.None? then Step(t, Err(NotAuthenticated))
    else Step(AddPost(t, caller.value, imageId, caption, isPublic), Ok(t.clock))
  }

  /** Creating a post throws, and writes nothing, exactly when no one is signed in. */
  lemma CreatePostFails(t: Tables, caller: Option<Id>, imageId: BlobId, caption: Option<string>, isPublic: Option<bool>)
    ensures CreatePostStep(t, caller, imageId, caption, isPublic).result.Err? <==> caller.None?
    ensures caller.None? ==> CreatePostStep(t, caller, imageId, caption, isPublic) == Step(t, Err(NotAuthenticated))
  {
  }

  /** A new post keeps the store valid, provided its author's id was issued. */
  lemma AddPostValid(t: Tables, me: Id, imageId: BlobId, caption: Option<string>, isPublic: Option<bool>)
    requires t.Valid() && me < t.clock
    ensures AddPost(t, me, imageId, caption, isPublic).Valid()
  {
  }

  /** A new post starts with no likes and no comments, and is public unless
      the author asked for it not to be. */
  lemma NewPostFields(author: Id, imageId: BlobId, caption: Option<string>, isPublic: Option<bool>)
    ensures var post := NewPost(author, imageId, caption, isPublic);
            && post.authorId == author && post.imageId == imageId && post.caption == caption
            && Num(post.likesCount) == 0 && Num(post.commentsCount) == 0
            && post.isPublic.Some? && (post.isPublic.value <==> isPublic != Some(false))
  {
  }

  /** Creating a post inserts it under a fresh id, leaving every other post
      as it was, and adds one to its author's post count. */
  lemma AddPostEffect(t: Tables, me: Id, imageId: BlobId, caption: Option<string>, isPublic: Option<bool>)
    requires t.Valid()
    ensures t.clock !in t.posts
    ensures AddPost(t, me, imageId, caption, isPublic).posts == t.posts[t.clock := NewPost(me, imageId, caption, isPublic)]
    ensures me in t.users ==>
            Num(AddPost(t, me, imageId, caption, isPublic).users[me].postsCount) == Num(t.users[me].postsCount) + 1
  {
  }

  /** Creating a post changes no table but posts and users, no profile but
      the author's, and of that only its post count. */
  lemma AddPostFrame(t: Tables, me: Id, imageId: BlobId, caption: Option<string>, isPublic: Option<bool>)
    ensures AddPost(t, me, imageId, caption, isPublic).users.Keys == t.users.Keys
    ensures forall u :: u in t.users && u != me ==> AddPost(t, me, imageId, caption, isPublic).users[u] == t.users[u]
    ensures me in t.users ==>
              AddPost(t, me, imageId, caption, isPublic).users[me]
              == t.users[me].(postsCount := AddPost(t, me, imageId, caption, isPublic).users[me].postsCount)
    ensures AddPost(t, me, imageId, caption, isPublic).(users := t.users, posts := t.posts, clock := t.clock) == t
  {
  }

  /** A post under a fresh id by `me`, counted on `me`, keeps post counting. */
  lemma AddPostCounted(users: map<Id, User>, posts: map<Id, Post>, id: Id, post: Post, me: Id)
    requires PostsCounted(users, posts) && id !in posts && post.authorId == me
    ensures me in users ==> PostsCounted(users[me := users[me].(postsCount := Some(Incremented(users[me].postsCount)))], posts[id := post])
    ensures me !in users ==> PostsCounted(users, posts[id := post])
  {
    forall u | u in users ensures |Having(posts[id := post], PostAuthor, u)| == |Having(posts, PostAuthor, u)| + (if u == me then 1 else 0) {
      HavingInsert(posts, PostAuthor, u, id, post);
    }
  }

  /** A post that has just been created has no likes and no comments, so
      zero counters agree with the rows. */
  lemma NewPostCounted(posts: map<Id, Post>, likes: map<Id, Like>, comments: map<Id, Comment>, id: Id, post: Post)
    requires LikesCounted(posts, likes) && CommentsCounted(posts, comments) && LikesAttached(likes, posts)
    requires forall l :: l in likes ==> likes[l].postId != id
    requires forall c :: c in comments ==> comments[c].postId != id
    requires Num(post.likesCount) == 0 && Num(post.commentsCount) == 0
    ensures LikesCounted(posts[id := post], likes) && CommentsCounted(posts[id := post], comments)
    ensures LikesAttached(likes, posts[id := post])
  {
    assert Having(likes, LikePost, id) == {};
    assert Having(comments, CommentPost, id) == {};
  }

  /** Creating a post keeps every counter equal to its row count. */
  lemma AddPostKeepsConsistent(t: Tables, me: Id, imageId: BlobId, caption: Option<string>, isPublic: Option<bool>)
    requires t.Valid() && t.Consistent() && me < t.clock
    ensures AddPost(t, me, imageId, caption, isPublic).Consistent()
  {
    var post := NewPost(me, imageId, caption, isPublic);
    AddPostCounted(t.users, t.posts, t.clock, post, me);
    NewPostCounted(t.posts, t.likes, t.comments, t.clock, post);
    AddPostFrame(t, me, imageId, caption, isPublic);
    FollowsCountedFrame(t.users, AddPost(t, me, imageId, caption, isPublic).users, t.follows);
  }

  /** Creating a post keeps the store valid and, when it was consistent,
      consistent, provided the session names a user id the store issued. */
  lemma CreatePostKeeps(t: Tables, caller: Option<Id>, imageId: BlobId, caption: Option<string>, isPublic: Option<bool>)
    requires t.Valid() && (caller.Some? ==> caller.value < t.clock)
    ensures CreatePostStep(t, caller, imageId, caption, isPublic).after.Valid()
    ensures t.Consistent() ==> CreatePostStep(t, caller, imageId, caption, isPublic).after.Consistent()
  {
    if caller.Some? {
      AddPostValid(t, caller.value, imageId, caption, isPublic);
      if t.Consistent() {
        AddPostKeepsConsistent(t, caller.value, imageId, caption, isPublic);
      }
    }
  }

  /** The cascade: every like and every comment on the post, the post itself,
      and, when the author's profile exists, one off its post count. */
  function RemovePost(t: Tables, p: Id, me: Id): Tables {
    t.(likes := Except(t.likes, LikePost, p),
       comments := Except(t.comments, CommentPost, p),
       posts := t.posts - {p},
       users := if me in t.users
                then t.users[me := t.users[me].(postsCount := Some(Decremented(t.users[me].postsCount)))]
                else t.users)
  }

  /** `deletePost`: what the handler does to the tables and what it returns. */
  function DeletePostStep(t: Tables, caller: Option<Id>, p: Id): Step<bool> {
    if caller.None? then Step(t, Err(NotAuthenticated))
    else if p !in t.posts then Step(t, Err(PostNotFound))
    else if t.posts[p].authorId != caller.value then Step(t, Err(NotAuthorized))
    else Step(RemovePost(t, p, caller.value), Ok(true))
  }

  /** Deleting throws, and writes nothing, without a signed-in caller, on a
      missing post, or on someone else's post; otherwise it returns true. */
  lemma DeletePostFails(t: Tables, caller: Option<Id>, p: Id)
    ensures DeletePostStep(t, caller, p).result.Err?
            <==> caller.None? || p !in t.posts || t.posts[p].authorId != caller.value
    ensures caller.None? ==> DeletePostStep(t, caller, p).result == Err(NotAuthenticated)
    ensures caller.Some? && p !in t.posts ==> DeletePostStep(t, caller, p).result == Err(PostNotFound)
    ensures caller.Some? && p in t.posts && t.posts[p].authorId != caller.value
            ==> DeletePostStep(t, caller, p).result == Err(NotAuthorized)
    ensures DeletePostStep(t, caller, p).result.Err? ==> DeletePostStep(t, caller, p).after == t
    ensures DeletePostStep(t, caller, p).result.Ok? ==> DeletePostStep(t, caller, p).result == Ok(true)
  {
  }

  /** After the cascade the post is gone and nothing refers to it: no like
      and no comment on it is left, while every other post keeps its rows,
      its likes and its comments; the author's post count goes one down,
      floored at zero. */
  lemma RemovePostEffect(t: Tables, p: Id, me: Id)
    requires t.Valid()
    ensures RemovePost(t, p, me).Valid()
    ensures RemovePost(t, p, me).posts.Keys == t.posts.Keys - {p}
    ensures forall q :: q in t.posts && q != p ==> RemovePost(t, p, me).posts[q] == t.posts[q]
    ensures Having(RemovePost(t, p, me).likes, LikePost, p) == {}
    ensures Having(RemovePost(t, p, me).comments, CommentPost, p) == {}
    ensures forall l :: l in t.likes && t.likes[l].postId != p ==> l in RemovePost(t, p, me).likes && RemovePost(t, p, me).likes[l] == t.likes[l]
    ensures forall c :: c in t.comments && t.comments[c].postId != p ==> c in RemovePost(t, p, me).comments && RemovePost(t, p, me).comments[c] == t.comments[c]
    ensures RemovePost(t, p, me).likes.Keys <= t.likes.Keys && RemovePost(t, p, me).comments.Keys <= t.comments.Keys
    ensures me in t.users ==> Num(RemovePost(t, p, me).users[me].postsCount) == Decremented(t.users[me].postsCount)
  {
  }

  /** The cascade changes no profile but the author's, and of that only its
      post count; follows and messages are untouched. */
  lemma RemovePostFrame(t: Tables, p: Id, me: Id)
    ensures RemovePost(t, p, me).users.Keys == t.users.Keys
    ensures forall u :: u in t.users && u != me ==> RemovePost(t, p, me).users[u] == t.users[u]
    ensures me in t.users ==> RemovePost(t, p, me).users[me] == t.users[me].(postsCount := RemovePost(t, p, me).users[me].postsCount)
    ensures RemovePost(t, p, me).(users := t.users, posts := t.posts, likes := t.likes, comments := t.comments) == t
  {
  }

  /** Deleting a post by `me` and counting it off `me` keeps post counting. */
  lemma RemovePostCounted(users: map<Id, User>, posts: map<Id, Post>, p: Id, me: Id)
    requires PostsCounted(users, posts) && p in posts && posts[p].authorId == me
    ensures me in users ==> PostsCounted(users[me := users[me].(postsCount := Some(Decremented(users[me].postsCount)))], posts - {p})
    ensures me !in users ==> PostsCounted(users, posts - {p})
  {
    forall u | u in users ensures |Having(posts - {p}, PostAuthor, u)| == |Having(posts, PostAuthor, u)| - (if u == me then 1 else 0) {
      HavingRemove(posts, PostAuthor, u, p);
    }
  }

  /** Deleting a post together with all its likes and comments keeps the
      like and comment counters of every other post, and leaves no like
      without its post. */
  lemma RemovePostRowsCounted(posts: map<Id, Post>, likes: map<Id, Like>, comments: map<Id, Comment>, p: Id)
    requires LikesCounted(posts, likes) && CommentsCounted(posts, comments) && LikesAttached(likes, posts)
    ensures LikesCounted(posts - {p}, Except(likes, LikePost, p))
    ensures CommentsCounted(posts - {p}, Except(comments, CommentPost, p))
    ensures LikesAttached(Except(likes, LikePost, p), posts - {p})
  {
  }

  /** Deleting a post keeps every counter equal to its row count and leaves no orphan like. */
  lemma RemovePostKeepsConsistent(t: Tables, p: Id, me: Id)
    requires t.Consistent() && p in t.posts && t.posts[p].authorId == me
    ensures RemovePost(t, p, me).Consistent()
  {
    RemovePostCounted(t.users, t.posts, p, me);
    RemovePostRowsCounted(t.posts, t.likes, t.comments, p);
    RemovePostFrame(t, p, me);
    FollowsCountedFrame(t.users, RemovePost(t, p, me).users, t.follows);
  }

  /** Deleting keeps the store valid and, when it was consistent, consistent. */
  lemma DeletePostKeeps(t: Tables, caller: Option<Id>, p: Id)
    requires t.Valid()
    ensures DeletePostStep(t, caller, p).after.Valid()
    ensures t.Consistent() ==> DeletePostStep(t, caller, p).after.Consistent()
  {
    if caller.Some? && p in t.posts && t.posts[p].authorId == caller.value {
      RemovePostEffect(t, p, caller.value);
      if t.Consistent() {
        RemovePostKeepsConsistent(t, p, caller.value);
      }
    }
  }

  /** A feed entry: the post, its author's profile (absent when gone), and
      whether the caller likes the post. */
  datatype FeedItem = FeedItem(post: Doc<Post>, author: Option<Doc<User>>, isLiked: bool)

  /** The `isPublic == true` filter. */
  predicate Public(d: Doc<Post>) {
    d.val.isPublic == Some(true)
  }

  /** The public posts, newest first. */
  function PublicPosts(t: Tables): (r: seq<Doc<Post>>)
    ensures Descending(r)
    ensures forall d :: d in r <==> d.id in t.posts && d.id < t.clock && d.val == t.posts[d.id] && Public(d)
  {
    var all := Reverse(Scan(t.posts, t.clock));
    ReverseOfAscending(Scan(t.posts, t.clock));
    ReverseMembers(Scan(t.posts, t.clock));
    WhereDescending(all, Public);
    Where(all, Public)
  }

  /** The posts of the feed: the fifty newest public posts. */
  function FeedPosts(t: Tables): (r: seq<Doc<Post>>)
    ensures |r| <= 50
  {
    Take(PublicPosts(t), 50)
  }

  /** The feed holds public posts only, each as stored, newest first. */
  lemma FeedPostsListed(t: Tables)
    ensures Descending(FeedPosts(t))
    ensures forall d :: d in FeedPosts(t) ==> d.id in t.posts && d.val == t.posts[d.id] && Public(d)
  {
    var all := PublicPosts(t);
    forall d | d in FeedPosts(t) ensures d in all {
      var i :| 0 <= i < |FeedPosts(t)| && FeedPosts(t)[i] == d;
      assert all[i] == d;
    }
  }

  /** A public post is left out of the feed only when the feed is full of
      fifty newer posts. */
  lemma FeedPostsNewest(t: Tables, q: Id)
    requires t.Valid() && q in t.posts && Public(Doc(q, t.posts[q])) && Doc(q, t.posts[q]) !in FeedPosts(t)
    ensures |FeedPosts(t)| == 50
    ensures forall i :: 0 <= i < 50 ==> FeedPosts(t)[i].id > q
  {
    TakeNewest(PublicPosts(t), 50, Doc(q, t.posts[q]));
  }

  /** The feed entries for `posts`, as `getFeed` builds them for `caller`. */
  function FeedItems(t: Tables, caller: Option<Id>, posts: seq<Doc<Post>>): (r: seq<FeedItem>)
    ensures |r| == |posts|
    ensures forall i :: 0 <= i < |r| ==> r[i].post == posts[i] && r[i].author == Get(t.users, posts[i].val.authorId)
    ensures forall i :: 0 <= i < |r| ==> r[i].isLiked == (caller.Some? && FindLike(t, posts[i].id, caller.value).Some?)
  {
    if posts == [] then []
    else
      var liked := caller.Some? && FindLike(t, posts[0].id, caller.value).Some?;
      [FeedItem(posts[0], Get(t.users, posts[0].val.authorId), liked)] + FeedItems(t, caller, posts[1..])
  }

  /** `getFeed`: the fifty newest public posts with their authors and whether the caller likes each. */
  function GetFeed(t: Tables, caller: Option<Id>): (r: seq<FeedItem>)
    ensures |r| <= 50
  {
    FeedItems(t, caller, FeedPosts(t))
  }

  /** Each feed entry says the caller likes the post exactly when there is
      a like of the caller on it, and never when no one is signed in. */
  lemma FeedLiked(t: Tables, caller: Option<Id>)
    requires t.Valid()
    ensures forall i :: 0 <= i < |GetFeed(t, caller)| ==>
            (GetFeed(t, caller)[i].isLiked <==> caller.Some? && Liked(t, GetFeed(t, caller)[i].post.id, caller.value))
  {
    var r := GetFeed(t, caller);
    forall i | 0 <= i < |r| ensures r[i].isLiked <==> caller.Some? && Liked(t, r[i].post.id, caller.value) {
      if caller.Some? {
        FindLikeFinds(t, r[i].post.id, caller.value);
      }
    }
  }

  /** `searchPosts`: nothing for a blank query; otherwise the first twenty
      public posts among `hits`, the caption search index's answer for the
      query, best match first. */
  function SearchPosts(query: string, hits: seq<Doc<Post>>): (r: seq<Doc<Post>>)
    ensures |r| <= 20
    ensures forall d :: d in r ==> d in hits && Public(d)
  {
    if Trim(query) == [] then [] else Take(Where(hits, Public), 20)
  }

  /** A query of white space alone finds nothing. */
  lemma SearchBlank(query: string, hits: seq<Doc<Post>>)
    requires forall i :: 0 <= i < |query| ==> IsSpace(query[i])
    ensures SearchPosts(query, hits) == []
  {
    TrimmedEmpty(query);
  }

  /** A non-blank query returns fewer than twenty posts only when it returns
      every public hit. */
  lemma SearchComplete(query: string, hits: seq<Doc<Post>>, d: Doc<Post>)
    requires Trim(query) != [] && d in hits && Public(d) && d !in SearchPosts(query, hits)
    ensures |SearchPosts(query, hits)| == 20
  {
  }

  /** `getUserPosts`: the user's posts, newest first. */
  function GetUserPosts(t: Tables, userId: Id): (r: seq<Doc<Post>>)
    ensures Descending(r)
    ensures forall d :: d in r <==> d.id in t.posts && d.id < t.clock && d.val == t.posts[d.id] && d.val.authorId == userId
  {
    var mine := Lookup(t.posts, t.clock, PostAuthor, userId);
    ReverseOfAscending(mine);
    ReverseMembers(mine);
    Reverse(mine)
  }

  /** `getMyPosts`: the caller's posts, newest first; nothing when no one is signed in. */
  function GetMyPosts(t: Tables, caller: Option<Id>): (r: seq<Doc<Post>>)
    ensures caller.None? ==> r == []
    ensures caller.Some? ==> forall d :: d in r <==> d.id in t.posts && d.id < t.clock && d.val == t.posts[d.id] && d.val.authorId == caller.value
  {
    if caller.None? then [] else GetUserPosts(t, caller.value)
  }

  /** In a consistent store a profile's post count is the length of its post list. */
  lemma PostsCountMatchesList(t: Tables, userId: Id)
    requires t.Valid() && t.Consistent() && userId in t.users
    ensures |GetUserPosts(t, userId)| == Num(t.users[userId].postsCount)
  {
    LookupCount(t.posts, t.clock, PostAuthor, userId);
  }

  /** `createPost` against the store object. */
  method CreatePost(db: Store, caller: Option<Id>, imageId: BlobId, caption: Option<string>, isPublic: Option<bool>)
    returns (r: Result<Id>)
    requires db.Valid() && (caller.Some? ==> caller.value < db.clock)
    modifies db
    ensures Step(db.State(), r) == CreatePostStep(old(db.State()), caller, imageId, caption, isPublic)
    ensures db.Valid() && (old(db.Consistent()) ==> db.Consistent())
  {
    CreatePostKeeps(db.State(), caller, imageId, caption, isPublic);
    if caller.None? {
      return Err(NotAuthenticated);
    }
    var userId := caller.value;
    var postId := db.NewId();
    db.posts := db.posts[postId := Post(userId, imageId, caption, Some(0), Some(0), Some(PublicOrDefault(isPublic)))];
    var user := Get(db.users, userId);
    if user.Some? {
      db.users := db.users[userId := user.value.val.(postsCount := Some(Incremented(user.value.val.postsCount)))];
    }
    return Ok(postId);
  }

  /** The loop over the collected likes: `ctx.db.delete` on each. */
  method DeleteLikes(db: Store, rows: seq<Doc<Like>>)
    modifies db
    ensures db.State() == old(db.State()).(likes := old(db.likes) - IdsOf(rows))
  {
    var i := 0;
    while i < |rows|
      invariant 0 <= i <= |rows|
      invariant db.State() == old(db.State()).(likes := old(db.likes) - IdsOf(rows[..i]))
    {
      IdsOfSnoc(rows, i);
      db.likes := db.likes - {rows[i].id};
      i := i + 1;
    }
    assert rows[..|rows|] == rows;
  }

  /** The loop over the collected comments: `ctx.db.delete` on each. */
  method DeleteComments(db: Store, rows: seq<Doc<Comment>>)
    modifies db
    ensures db.State() == old(db.State()).(comments := old(db.comments) - IdsOf(rows))
  {
    var i := 0;
    while i < |rows|
      invariant 0 <= i <= |rows|
      invariant db.State() == old(db.State()).(comments := old(db.comments) - IdsOf(rows[..i]))
    {
      IdsOfSnoc(rows, i);
      db.comments := db.comments - {rows[i].id};
      i := i + 1;
    }
    assert rows[..|rows|] == rows;
  }

  /** `deletePost` against the store object: the likes and comments on the
      post are collected first and then deleted one by one. */
  method DeletePost(db: Store, caller: Option<Id>, postId: Id) returns (r: Result<bool>)
    requires db.Valid()
    modifies db
    ensures Step(db.State(), r) == DeletePostStep(old(db.State()), caller, postId)
    ensures db.Valid() && (old(db.Consistent()) ==> db.Consistent())
  {
    DeletePostKeeps(db.State(), caller, postId);
    if caller.None? {
      return Err(NotAuthenticated);
    }
    var userId := caller.value;
    var post := Get(db.posts, postId);
    if post.None? {
      return Err(PostNotFound);
    }
    if post.value.val.authorId != userId {
      return Err(NotAuthorized);
    }
    var likes := Lookup(db.likes, db.clock, LikePost, postId);
    var comments := Lookup(db.comments, db.clock, CommentPost, postId);
    LookupCount(db.likes, db.clock, LikePost, postId);
    LookupCount(db.comments, db.clock, CommentPost, postId);
    DeleteLikes(db, likes);
    DeleteComments(db, comments);
    db.posts := db.posts - {postId};
    var user := Get(db.users, userId);
    if user.Some? {
      db.users := db.users[userId := user.value.val.(postsCount := Some(Decremented(user.value.val.postsCount)))];
    }
    return Ok(true);
  }
}
