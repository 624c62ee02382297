/**
 * Comments (convex/comments.ts): `addComment` inserts a comment and counts it
 * on its post when the post still exists, `deleteComment` lets the author
 * delete it and counts it off again, and `getPostComments` lists a post's
 * comments newest first.
 *
 * `addComment` inserts even when the post is gone (the post id was issued
 * but the post deleted): such a comment belongs to no post and is counted
 * nowhere. The id can never name a post again, so counting stays exact.
 */
module Comments {
  import opened Schema
  import opened Counters
  import opened Query
  import opened Database

  /** The insert and, when the post exists, one more on its comment count. */
  function InsertComment(t: Tables, me: Id, postId: Id, content: string): Tables {
    t.Issue().(comments := t.comments[t.clock := Comment(postId, me, content, Some(0))],
               posts := if postId in t.posts
                        then t.posts[postId := t.posts[postId].(commentsCount := Some(Incremented(t.posts[postId].commentsCount)))]
                        else t.posts)
  }

  /** `addComment`: what the handler does to the tables and what it returns. */
  function AddCommentStep(t: Tables, caller: Option<Id>, postId: Id, content: string): Step<Id> {
    if caller.None? then Step(t, Err(NotAuthenticated))
    else Step(InsertComment(t, caller.value, postId, content), Ok(t.clock))
  }

  /** Adding a comment throws, and writes nothing, exactly when no one is signed in. */
  lemma AddCommentFails(t: Tables, caller: Option<Id>, postId: Id, content: string)
    ensures AddCommentStep(t, caller, postId, content).result.Err? <==> caller.None?
    ensures caller.None? ==> AddCommentStep(t, caller, postId, content) == Step(t, Err(NotAuthenticated))
  {
  }

  /** A new comment gets a fresh id, is by the caller, and adds one to its
      post's comment count when the post exists; no other post changes. */
  lemma InsertCommentEffect(t: Tables, me: Id, postId: Id, content: string)
    requires t.Valid() && postId < t.clock
    ensures InsertComment(t, me, postId, content).Valid()
    ensures t.clock !in t.comments
    ensures InsertComment(t, me, postId, content).comments == t.comments[t.clock := Comment(postId, me, content, Some(0))]
    ensures InsertComment(t, me, postId, content).posts.Keys == t.posts.Keys
    ensures forall q :: q in t.posts && q != postId ==> InsertComment(t, me, postId, content).posts[q] == t.posts[q]
    ensures postId in t.posts ==>
            && Num(InsertComment(t, me, postId, content).posts[postId].commentsCount) == Num(t.posts[postId].commentsCount) + 1
            && InsertComment(t, me, postId, content).posts[postId]
               == t.posts[postId].(commentsCount := InsertComment(t, me, postId, content).posts[postId].commentsCount)
  {
  }

  /** A comment on a post that no longer exists is still stored, and no
      post's counter changes. */
  lemma InsertCommentOrphan(t: Tables, me: Id, postId: Id, content: string)
    requires postId !in t.posts
    ensures t.clock in InsertComment(t, me, postId, content).comments
    ensures InsertComment(t, me, postId, content).comments[t.clock].postId !in InsertComment(t, me, postId, content).posts
    ensures InsertComment(t, me, postId, content).posts == t.posts
  {
  }

  /** A comment under a fresh id, counted on its post when the post exists, keeps comment counting. */
  lemma InsertCommentCounted(posts: map<Id, Post>, comments: map<Id, Comment>, id: Id, c: Comment)
    requires CommentsCounted(posts, comments) && id !in comments
    ensures c.postId in posts ==>
            CommentsCounted(posts[c.postId := posts[c.postId].(commentsCount := Some(Incremented(posts[c.postId].commentsCount)))],
                            comments[id := c])
    ensures c.postId !in posts ==> CommentsCounted(posts, comments[id := c])
  {
    forall p | p in posts
      ensures |Having(comments[id := c], CommentPost, p)| == |Having(comments, CommentPost, p)| + (if c.postId == p then 1 else 0)
    {
      HavingInsert(comments, CommentPost, p, id, c);
    }
  }

  /** Adding a comment keeps every counter equal to its row count. */
  lemma InsertCommentKeepsConsistent(t: Tables, me: Id, postId: Id, content: string)
    requires t.Consistent() && t.clock !in t.comments
    ensures InsertComment(t, me, postId, content).Consistent()
  {
    var after := InsertComment(t, me, postId, content);
    InsertCommentCounted(t.posts, t.comments, t.clock, Comment(postId, me, content, Some(0)));
    LikesCountedFrame(t.posts, after.posts, t.likes);
    if postId in t.posts {
      PostsCountedPatch(t.users, t.posts, postId, after.posts[postId]);
    }
  }

  /** Adding a comment keeps the store valid and, when it was consistent,
      consistent, provided the post id was issued (the `v.id("posts")` validator). */
  lemma AddCommentKeeps(t: Tables, caller: Option<Id>, postId: Id, content: string)
    requires t.Valid() && postId < t.clock
    ensures AddCommentStep(t, caller, postId, content).after.Valid()
    ensures t.Consistent() ==> AddCommentStep(t, caller, postId, content).after.Consistent()
  {
    if caller.Some? {
      InsertCommentEffect(t, caller.value, postId, content);
      if t.Consistent() {
        InsertCommentKeepsConsistent(t, caller.value, postId, content);
      }
    }
  }

  /** The delete and, when the post exists, one off its comment count. */
  function RemoveComment(t: Tables, c: Id): Tables
    requires c in t.comments
  {
    var postId := t.comments[c].postId;
    t.(comments := t.comments - {c},
       posts := if postId in t.posts
                then t.posts[postId := t.posts[postId].(commentsCount := Some(Decremented(t.posts[postId].commentsCount)))]
                else t.posts)
  }

  /** `deleteComment`: what the handler does to the tables and what it returns. */
  function DeleteCommentStep(t: Tables, caller: Option<Id>, c: Id): Step<bool> {
    if caller.None? then Step(t, Err(NotAuthenticated))
    else if c !in t.comments then Step(t, Err(CommentNotFound))
    else if t.comments[c].authorId != caller.value then Step(t, Err(NotAuthorized))
    else Step(RemoveComment(t, c), Ok(true))
  }

  /** Deleting throws, and writes nothing, without a signed-in caller, on a
      missing comment, or on someone else's comment; otherwise it returns true. */
  lemma DeleteCommentFails(t: Tables, caller: Option<Id>, c: Id)
    ensures DeleteCommentStep(t, caller, c).result.Err?
            <==> caller.None? || c !in t.comments || t.comments[c].authorId != caller.value
    ensures caller.None? ==> DeleteCommentStep(t, caller, c).result == Err(NotAuthenticated)
    ensures caller.Some? && c !in t.comments ==> DeleteCommentStep(t, caller, c).result == Err(CommentNotFound)
    ensures caller.Some? && c in t.comments && t.comments[c].authorId != caller.value
            ==> DeleteCommentStep(t, caller, c).result == Err(NotAuthorized)
    ensures DeleteCommentStep(t, caller, c).result.Err? ==> DeleteCommentStep(t, caller, c).after == t
    ensures DeleteCommentStep(t, caller, c).result.Ok? ==> DeleteCommentStep(t, caller, c).result == Ok(true)
  {
  }

  /** Deleting removes that comment and no other, counts it off its post
      (floored at zero) when the post exists, and leaves every other post as it was. */
  lemma RemoveCommentEffect(t: Tables, c: Id)
    requires t.Valid() && c in t.comments
    ensures RemoveComment(t, c).Valid()
    ensures RemoveComment(t, c).comments.Keys == t.comments.Keys - {c}
    ensures forall k :: k in t.comments && k != c ==> RemoveComment(t, c).comments[k] == t.comments[k]
    ensures RemoveComment(t, c).posts.Keys == t.posts.Keys
    ensures forall q :: q in t.posts && q != t.comments[c].postId ==> RemoveComment(t, c).posts[q] == t.posts[q]
    ensures var p := t.comments[c].postId;
            p in t.posts ==>
            && Num(RemoveComment(t, c).posts[p].commentsCount) == Decremented(t.posts[p].commentsCount)
            && RemoveComment(t, c).posts[p] == t.posts[p].(commentsCount := RemoveComment(t, c).posts[p].commentsCount)
  {
  }

  /** Deleting a comment and counting it off its post keeps comment counting. */
  lemma RemoveCommentCounted(posts: map<Id, Post>, comments: map<Id, Comment>, c: Id)
    requires CommentsCounted(posts, comments) && c in comments
    ensures var p := comments[c].postId;
            p in posts ==>
            CommentsCounted(posts[p := posts[p].(commentsCount := Some(Decremented(posts[p].commentsCount)))], comments - {c})
    ensures comments[c].postId !in posts ==> CommentsCounted(posts, comments - {c})
  {
    forall p | p in posts
      ensures |Having(comments - {c}, CommentPost, p)| == |Having(comments, CommentPost, p)| - (if comments[c].postId == p then 1 else 0)
    {
      HavingRemove(comments, CommentPost, p, c);
    }
  }

  /** Deleting a comment keeps every counter equal to its row count. */
  lemma RemoveCommentKeepsConsistent(t: Tables, c: Id)
    requires t.Consistent() && c in t.comments
    ensures RemoveComment(t, c).Consistent()
  {
    var after := RemoveComment(t, c);
    var p := t.comments[c].postId;
    RemoveCommentCounted(t.posts, t.comments, c);
    LikesCountedFrame(t.posts, after.posts, t.likes);
    if p in t.posts {
      PostsCountedPatch(t.users, t.posts, p, after.posts[p]);
    }
  }

  /** Deleting keeps the store valid and, when it was consistent, consistent. */
  lemma DeleteCommentKeeps(t: Tables, caller: Option<Id>, c: Id)
    requires t.Valid()
    ensures DeleteCommentStep(t, caller, c).after.Valid()
    ensures t.Consistent() ==> DeleteCommentStep(t, caller, c).after.Consistent()
  {
    if caller.Some? && c in t.comments && t.comments[c].authorId == caller.value {
      RemoveCommentEffect(t, c);
      if t.Consistent() {
        RemoveCommentKeepsConsistent(t, c);
      }
    }
  }

  /** Deleting the comment one has just added restores the comments and, in
      a consistent store, the post's comment count. */
  lemma AddThenDelete(t: Tables, me: Id, postId: Id, content: string)
    requires t.Valid() && postId < t.clock
    ensures var added := AddCommentStep(t, Some(me), postId, content);
            && added.result == Ok(t.clock)
            && DeleteCommentStep(added.after, Some(me), t.clock).result == Ok(true)
            && DeleteCommentStep(added.after, Some(me), t.clock).after.comments == t.comments
    ensures postId in t.posts ==>
            var a := DeleteCommentStep(AddCommentStep(t, Some(me), postId, content).after, Some(me), t.clock).after;
            Num(a.posts[postId].commentsCount) == Num(t.posts[postId].commentsCount)
  {
    var m := InsertComment(t, me, postId, content);
    InsertCommentEffect(t, me, postId, content);
    RemoveCommentEffect(m, t.clock);
    assert m.comments - {t.clock} == t.comments;
    if postId in t.posts {
      DecrementUndoesIncrement(t.posts[postId].commentsCount);
    }
  }

  /** A comment as `getPostComments` returns it: with its author's profile (absent when gone). */
  datatype CommentView = CommentView(comment: Doc<Comment>, author: Option<Doc<User>>)

  /** The comments `rows` joined with their authors' profiles. */
  function WithAuthors(t: Tables, rows: seq<Doc<Comment>>): (r: seq<CommentView>)
    ensures |r| == |rows|
    ensures forall i :: 0 <= i < |r| ==> r[i].comment == rows[i] && r[i].author == Get(t.users, rows[i].val.authorId)
  {
    if rows == [] then [] else [CommentView(rows[0], Get(t.users, rows[0].val.authorId))] + WithAuthors(t, rows[1..])
  }

  /** The comments on a post, newest first. */
  function PostComments(t: Tables, postId: Id): (r: seq<Doc<Comment>>)
    ensures Descending(r)
    ensures forall d :: d in r <==> d.id in t.comments && d.id < t.clock && d.val == t.comments[d.id] && d.val.postId == postId
  {
    var rows := Lookup(t.comments, t.clock, CommentPost, postId);
    ReverseOfAscending(rows);
    ReverseMembers(rows);
    Reverse(rows)
  }

  /** `getPostComments`: the post's comments, newest first, each with its author. */
  function GetPostComments(t: Tables, postId: Id): (r: seq<CommentView>)
    ensures |r| == |PostComments(t, postId)|
  {
    WithAuthors(t, PostComments(t, postId))
  }

  /** Every entry of `getPostComments` is a comment row on that post with
      its author's profile, and they come newest first. */
  lemma PostCommentsListed(t: Tables, postId: Id)
    ensures var r := GetPostComments(t, postId);
      forall i :: 0 <= i < |r| ==>
        && r[i].comment.id in t.comments && r[i].comment.val == t.comments[r[i].comment.id]
        && r[i].comment.val.postId == postId
        && r[i].author == Get(t.users, r[i].comment.val.authorId)
    ensures var r := GetPostComments(t, postId);
      forall i, j :: 0 <= i < j < |r| ==> r[i].comment.id > r[j].comment.id
  {
    var rows := PostComments(t, postId);
    assert forall i :: 0 <= i < |rows| ==> rows[i] in rows;
  }

  /** Every comment on the post is in `getPostComments`. */
  lemma PostCommentsComplete(t: Tables, postId: Id, c: Id)
    requires t.Valid() && c in t.comments && t.comments[c].postId == postId
    ensures exists i :: 0 <= i < |GetPostComments(t, postId)| && GetPostComments(t, postId)[i].comment == Doc(c, t.comments[c])
  {
    var rows := PostComments(t, postId);
    assert Doc(c, t.comments[c]) in rows;
    var i :| 0 <= i < |rows| && rows[i] == Doc(c, t.comments[c]);
    assert GetPostComments(t, postId)[i].comment == rows[i];
  }

  /** In a consistent store a post's comment count is the length of its comment list. */
  lemma CommentsCountMatchesList(t: Tables, postId: Id)
    requires t.Valid() && t.Consistent() && postId in t.posts
    ensures |GetPostComments(t, postId)| == Num(t.posts[postId].commentsCount)
  {
    LookupCount(t.comments, t.clock, CommentPost, postId);
  }

  /** `addComment` against the store object. */
  method AddComment(db: Store, caller: Option<Id>, postId: Id, content: string) returns (r: Result<Id>)
    requires db.Valid() && postId < db.clock
    modifies db
    ensures Step(db.State(), r) == AddCommentStep(old(db.State()), caller, postId, content)
    ensures db.Valid() && (old(db.Consistent()) ==> db.Consistent())
  {
    AddCommentKeeps(db.State(), caller, postId, content);
    if caller.None? {
      return Err(NotAuthenticated);
    }
    var userId := caller.value;
    var commentId := db.NewId();
    db.comments := db.comments[commentId := Comment(postId, userId, content, Some(0))];
    var post := Get(db.posts, postId);
    if post.Some? {
      db.posts := db.posts[postId := post.value.val.(commentsCount := Some(Incremented(post.value.val.commentsCount)))];
    }
    return Ok(commentId);
  }

  /** `deleteComment` against the store object. */
  method DeleteComment(db: Store, caller: Option<Id>, commentId: Id) returns (r: Result<bool>)
    requires db.Valid()
    modifies db
    ensures Step(db.State(), r) == DeleteCommentStep(old(db.State()), caller, commentId)
    ensures db.Valid() && (old(db.Consistent()) ==> db.Consistent())
  {
    DeleteCommentKeeps(db.State(), caller, commentId);
    if caller.None? {
      return Err(NotAuthenticated);
    }
    var userId := caller.value;
    var comment := Get(db.comments, commentId);
    if comment.None? {
      return Err(CommentNotFound);
    }
    if comment.value.val.authorId != userId {
      return Err(NotAuthorized);
    }
    db.comments := db.comments - {commentId};
    var postId := comment.value.val.postId;
    var post := Get(db.posts, postId);
    if post.Some? {
      db.posts := db.posts[postId := post.value.val.(commentsCount := Some(Decremented(post.value.val.commentsCount)))];
    }
    return Ok(true);
  }
}
