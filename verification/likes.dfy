/**
 * Likes (convex/likes.ts): `toggleLike` adds or removes the caller's like on a
 * post and keeps the post's `likesCount` in step; `getPostLikes` lists a
 * post's likes with their authors.
 */
module Likes {
  import opened Schema
  import opened Counters
  import opened Query
  import opened Database

  /** User `u` likes post `p`. */
  ghost predicate Liked(t: Tables, p: Id, u: Id) {
    Like(p, u) in t.likes.Values
  }

  /** The caller's like on a post, looked up through `by_post_and_user` with `.unique()`. */
  function FindLike(t: Tables, postId: Id, userId: Id): (r: Option<Id>)
    ensures r.Some? ==> r.value in t.likes && t.likes[r.value] == Like(postId, userId)
    ensures r.None? ==> forall id :: id in t.likes && id < t.clock ==> t.likes[id] != Like(postId, userId)
  {
    FindRow(t.likes, t.clock, Like(postId, userId))
  }

  /** In a valid store the lookup finds a like exactly when there is one. */
  lemma FindLikeFinds(t: Tables, postId: Id, userId: Id)
    requires t.Valid()
    ensures FindLike(t, postId, userId).Some? <==> Liked(t, postId, userId)
  {
    if Liked(t, postId, userId) {
      var l :| l in t.likes && t.likes[l] == Like(postId, userId);
    }
  }

  /** The unlike branch: delete like row `l` and count the post's likes one down. */
  function Unlike(t: Tables, postId: Id, l: Id): Tables
    requires postId in t.posts
  {
    var post := t.posts[postId];
    t.(likes := t.likes - {l},
       posts := t.posts[postId := post.(likesCount := Some(Decremented(post.likesCount)))])
  }

  /** The like branch: insert a like row under the next id and count the post's likes one up. */
  function AddLike(t: Tables, postId: Id, userId: Id): Tables
    requires postId in t.posts
  {
    var post := t.posts[postId];
    t.Issue().(likes := t.likes[t.clock := Like(postId, userId)],
               posts := t.posts[postId := post.(likesCount := Some(Incremented(post.likesCount)))])
  }

  /** Unliking removes exactly that like and counts the post one down, floored at zero. */
  lemma UnlikeEffect(t: Tables, postId: Id, l: Id)
    requires t.Valid() && postId in t.posts && l in t.likes && t.likes[l].postId == postId
    ensures Unlike(t, postId, l).Valid()
    ensures Unlike(t, postId, l).likes.Values == t.likes.Values - {t.likes[l]}
    ensures Num(Unlike(t, postId, l).posts[postId].likesCount) == Decremented(t.posts[postId].likesCount)
  {
    ValuesRemove(t.likes, l);
  }

  /** Liking adds exactly that like and counts the post one up. */
  lemma AddLikeEffect(t: Tables, postId: Id, userId: Id)
    requires t.Valid() && postId in t.posts && !Liked(t, postId, userId)
    ensures AddLike(t, postId, userId).Valid()
    ensures AddLike(t, postId, userId).likes.Values == t.likes.Values + {Like(postId, userId)}
    ensures Num(AddLike(t, postId, userId).posts[postId].likesCount) == Num(t.posts[postId].likesCount) + 1
  {
    ValuesInsert(t.likes, t.clock, Like(postId, userId));
    assert forall id :: id in t.likes ==> t.likes[id] != Like(postId, userId);
  }

  /** Unliking changes no table but likes and posts, no post but the liked one,
      and no field of that post but its like counter. */
  lemma UnlikeFrame(t: Tables, postId: Id, l: Id)
    requires postId in t.posts
    ensures Unlike(t, postId, l).posts.Keys == t.posts.Keys
    ensures forall q :: q in t.posts && q != postId ==> Unlike(t, postId, l).posts[q] == t.posts[q]
    ensures Unlike(t, postId, l).posts[postId] == t.posts[postId].(likesCount := Unlike(t, postId, l).posts[postId].likesCount)
    ensures Unlike(t, postId, l).(posts := t.posts, likes := t.likes) == t
  {
  }

  /** Liking changes no table but likes and posts, no post but the liked one,
      and no field of that post but its like counter. */
  lemma AddLikeFrame(t: Tables, postId: Id, userId: Id)
    requires postId in t.posts
    ensures AddLike(t, postId, userId).posts.Keys == t.posts.Keys
    ensures forall q :: q in t.posts && q != postId ==> AddLike(t, postId, userId).posts[q] == t.posts[q]
    ensures AddLike(t, postId, userId).posts[postId]
            == t.posts[postId].(likesCount := AddLike(t, postId, userId).posts[postId].likesCount)
    ensures AddLike(t, postId, userId).(posts := t.posts, likes := t.likes, clock := t.clock) == t
  {
  }

  /** Deleting a like on a post and counting one down keeps like counting. */
  lemma UnlikeCounted(posts: map<Id, Post>, likes: map<Id, Like>, l: Id)
    requires LikesCounted(posts, likes) && l in likes && likes[l].postId in posts
    ensures var p := likes[l].postId;
            LikesCounted(posts[p := posts[p].(likesCount := Some(Decremented(posts[p].likesCount)))], likes - {l})
  {
    forall q | q in posts ensures |Having(likes - {l}, LikePost, q)| == |Having(likes, LikePost, q)| - (if likes[l].postId == q then 1 else 0) {
      HavingRemove(likes, LikePost, q, l);
    }
  }

  /** Inserting a like on a post under a fresh id and counting one up keeps like counting. */
  lemma AddLikeCounted(posts: map<Id, Post>, likes: map<Id, Like>, id: Id, like: Like)
    requires LikesCounted(posts, likes) && id !in likes && like.postId in posts
    ensures var p := like.postId;
            LikesCounted(posts[p := posts[p].(likesCount := Some(Incremented(posts[p].likesCount)))], likes[id := like])
  {
    forall q | q in posts ensures |Having(likes[id := like], LikePost, q)| == |Having(likes, LikePost, q)| + (if like.postId == q then 1 else 0) {
      HavingInsert(likes, LikePost, q, id, like);
    }
  }

  /** Unliking keeps every counter equal to its row count and every like attached to a post. */
  lemma UnlikeKeepsConsistent(t: Tables, postId: Id, l: Id)
    requires t.Consistent() && postId in t.posts && l in t.likes && t.likes[l].postId == postId
    ensures Unlike(t, postId, l).Consistent()
  {
    var a := Unlike(t, postId, l);
    UnlikeCounted(t.posts, t.likes, l);
    CommentsCountedFrame(t.posts, a.posts, t.comments);
    PostsCountedPatch(t.users, t.posts, postId, a.posts[postId]);
  }

  /** Liking keeps every counter equal to its row count and every like attached to a post. */
  lemma AddLikeKeepsConsistent(t: Tables, postId: Id, userId: Id)
    requires t.Consistent() && postId in t.posts && t.clock !in t.likes
    ensures AddLike(t, postId, userId).Consistent()
  {
    var a := AddLike(t, postId, userId);
    AddLikeCounted(t.posts, t.likes, t.clock, Like(postId, userId));
    CommentsCountedFrame(t.posts, a.posts, t.comments);
    PostsCountedPatch(t.users, t.posts, postId, a.posts[postId]);
  }

  /** `toggleLike`: what the handler does to the tables and what it returns. */
  function ToggleLikeStep(t: Tables, caller: Option<Id>, postId: Id): Step<bool> {
    if caller.None? then Step(t, Err(NotAuthenticated))
    else
      var existing := FindLike(t, postId, caller.value);
      if postId !in t.posts then Step(t, Err(PostNotFound))
      else if existing.Some? then Step(Unlike(t, postId, existing.value), Ok(false))
      else Step(AddLike(t, postId, caller.value), Ok(true))
  }

  /** Without a signed-in caller or on a missing post the toggle throws and writes nothing. */
  lemma ToggleLikeFails(t: Tables, caller: Option<Id>, postId: Id)
    ensures ToggleLikeStep(t, caller, postId).result.Err? <==> caller.None? || postId !in t.posts
    ensures caller.None? ==> ToggleLikeStep(t, caller, postId).result == Err(NotAuthenticated)
    ensures caller.Some? && postId !in t.posts ==> ToggleLikeStep(t, caller, postId).result == Err(PostNotFound)
    ensures ToggleLikeStep(t, caller, postId).result.Err? ==> ToggleLikeStep(t, caller, postId).after == t
  {
  }

  /** A successful toggle flips the caller's like on the post and no other like,
      returns whether the post is now liked, and counts the post one down
      (floored at zero) on an unlike and one up on a like. */
  lemma ToggleLikeFlips(t: Tables, u: Id, p: Id)
    requires t.Valid() && p in t.posts
    ensures ToggleLikeStep(t, Some(u), p).after.Valid()
    ensures ToggleLikeStep(t, Some(u), p).result == Ok(!Liked(t, p, u))
    ensures ToggleLikeStep(t, Some(u), p).after.likes.Values
            == if Liked(t, p, u) then t.likes.Values - {Like(p, u)} else t.likes.Values + {Like(p, u)}
    ensures Num(ToggleLikeStep(t, Some(u), p).after.posts[p].likesCount)
            == if Liked(t, p, u) then Decremented(t.posts[p].likesCount) else Num(t.posts[p].likesCount) + 1
  {
    FindLikeFinds(t, p, u);
    var existing := FindLike(t, p, u);
    if existing.Some? {
      UnlikeEffect(t, p, existing.value);
    } else {
      AddLikeEffect(t, p, u);
    }
  }

  /** A toggle keeps the store valid and, when it was consistent, consistent. */
  lemma ToggleLikeKeeps(t: Tables, caller: Option<Id>, postId: Id)
    requires t.Valid()
    ensures ToggleLikeStep(t, caller, postId).after.Valid()
    ensures t.Consistent() ==> ToggleLikeStep(t, caller, postId).after.Consistent()
  {
    if caller.Some? && postId in t.posts {
      ToggleLikeFlips(t, caller.value, postId);
      var existing := FindLike(t, postId, caller.value);
      if t.Consistent() {
        if existing.Some? {
          UnlikeKeepsConsistent(t, postId, existing.value);
        } else {
          AddLikeKeepsConsistent(t, postId, caller.value);
        }
      }
    }
  }

  /** Liking and then unliking, or the reverse, restores who likes the post. */
  lemma ToggleLikeTwice(t: Tables, u: Id, p: Id)
    requires t.Valid() && p in t.posts
    ensures ToggleLikeStep(ToggleLikeStep(t, Some(u), p).after, Some(u), p).after.likes.Values == t.likes.Values
  {
    var m := ToggleLikeStep(t, Some(u), p).after;
    ToggleLikeFlips(t, u, p);
    ToggleLikeFlips(m, u, p);
  }

  /** In a consistent store, toggling twice restores the post's like counter. */
  lemma ToggleLikeTwiceCount(t: Tables, u: Id, p: Id)
    requires t.Valid() && t.Consistent() && p in t.posts
    ensures Num(ToggleLikeStep(ToggleLikeStep(t, Some(u), p).after, Some(u), p).after.posts[p].likesCount)
            == Num(t.posts[p].likesCount)
  {
    var m := ToggleLikeStep(t, Some(u), p).after;
    ToggleLikeFlips(t, u, p);
    ToggleLikeFlips(m, u, p);
    var c := t.posts[p].likesCount;
    if Liked(t, p, u) {
      var l :| l in t.likes && t.likes[l] == Like(p, u);
      assert l in Having(t.likes, LikePost, p);
      IncrementUndoesDecrement(c);
    } else {
      DecrementUndoesIncrement(c);
    }
  }


  /** A like on a post together with the profile of the user who gave it. */
  datatype LikeView = LikeView(like: Doc<Like>, user: Option<Doc<User>>)

  /** The likes `rows`, each joined with the profile of the user who gave it. */
  function WithUsers(t: Tables, rows: seq<Doc<Like>>): (r: seq<LikeView>)
    ensures |r| == |rows|
    ensures forall i :: 0 <= i < |r| ==> r[i].like == rows[i] && r[i].user == Get(t.users, rows[i].val.userId)
  {
    if rows == [] then [] else [LikeView(rows[0], Get(t.users, rows[0].val.userId))] + WithUsers(t, rows[1..])
  }

  /** `getPostLikes`: the likes on the post, each with the profile of its user
      (absent when the user row is gone); there are as many as the post has likes. */
  function GetPostLikes(t: Tables, postId: Id): (r: seq<LikeView>)
    requires t.Valid()
    ensures |r| == |Having(t.likes, LikePost, postId)|
  {
    LookupCount(t.likes, t.clock, LikePost, postId);
    WithUsers(t, Lookup(t.likes, t.clock, LikePost, postId))
  }

  /** Every entry of `getPostLikes` is a like row on that post with its user's
      profile, and they come oldest first, so each like is listed once. */
  lemma PostLikesListed(t: Tables, postId: Id)
    requires t.Valid()
    ensures var r := GetPostLikes(t, postId);
      forall i :: 0 <= i < |r| ==>
        && r[i].like.id in t.likes && r[i].like.val == t.likes[r[i].like.id]
        && r[i].like.val.postId == postId
        && r[i].user == Get(t.users, r[i].like.val.userId)
    ensures var r := GetPostLikes(t, postId);
      forall i, j :: 0 <= i < j < |r| ==> r[i].like.id < r[j].like.id
  {
    var rows := Lookup(t.likes, t.clock, LikePost, postId);
    assert forall i :: 0 <= i < |rows| ==> rows[i] in rows;
  }

  /** In a consistent store a post's like count is the number of likes `getPostLikes` lists. */
  lemma LikesCountMatchesList(t: Tables, postId: Id)
    requires t.Valid() && t.Consistent() && postId in t.posts
    ensures |GetPostLikes(t, postId)| == Num(t.posts[postId].likesCount)
  {
  }

  /** `toggleLike` against the store object. */
  method ToggleLike(db: Store, caller: Option<Id>, postId: Id) returns (r: Result<bool>)
    requires db.Valid()
    modifies db
    ensures Step(db.State(), r) == ToggleLikeStep(old(db.State()), caller, postId)
    ensures db.Valid() && (old(db.Consistent()) ==> db.Consistent())
  {
    ToggleLikeKeeps(db.State(), caller, postId);
    if caller.None? {
      return Err(NotAuthenticated);
    }
    var userId := caller.value;
    var existing := FindLike(db.State(), postId, userId);
    if postId !in db.posts {
      return Err(PostNotFound);
    }
    var post := db.posts[postId];
    if existing.Some? {
      db.likes := db.likes - {existing.value};
      db.posts := db.posts[postId := post.(likesCount := Some(Decremented(post.likesCount)))];
      return Ok(false);
    } else {
      var id := db.NewId();
      db.likes := db.likes[id := Like(postId, userId)];
      db.posts := db.posts[postId := post.(likesCount := Some(Incremented(post.likesCount)))];
      return Ok(true);
    }
  }
}
