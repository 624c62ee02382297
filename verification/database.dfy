/**
 * The document store the handlers write to: one table per entity, each a map
 * from id to record, and the id counter. Ids are issued in creation order and
 * never reused, so an argument validated as `v.id("posts")` may name a post
 * that was deleted but never one not yet created.
 *
 * `Tables.Valid` is the shape every mutation preserves: every row id, and the
 * references `posts.authorId`, `likes.postId`, `comments.postId` and both ends
 * of a follow, were issued before the clock (a like's user, a comment's author
 * and a message's ends are not constrained), and a like or follow is never
 * stored twice, because toggling looks the pair up before inserting.
 * `Tables.Consistent` is
 * what the mutations are meant to keep: every cached counter equals the number
 * of rows it counts, no one follows themselves, and every like belongs to a post.
 *
 * Each mutation is specified by a step function from the tables before to the
 * tables after and the outcome (`Step`); the handler, written against the
 * `Store` object, is proved to perform exactly that step.
 */
module Database {
  import opened Schema
  import opened Counters
  import opened Query

  /** Index keys: the field an index such as `by_post` or `by_author` is built on. */
  function LikePost(l: Like): Id { l.postId }
  function CommentPost(c: Comment): Id { c.postId }
  function PostAuthor(p: Post): Id { p.authorId }
  function Follower(f: Follow): Id { f.followerId }
  function Followee(f: Follow): Id { f.followingId }

  /** Every row of `rows` has an id the store has issued. */
  ghost predicate Below<R>(rows: map<Id, R>, clock: nat) {
    forall id :: id in rows ==> id < clock
  }

  /** No two rows hold the same record: what a unique index lookup (`.unique()`) relies on. */
  ghost predicate UniqueRows<R>(rows: map<Id, R>) {
    forall a, b :: a in rows && b in rows && rows[a] == rows[b] ==> a == b
  }

  ghost predicate LikesCounted(posts: map<Id, Post>, likes: map<Id, Like>) {
    forall p :: p in posts ==> Num(posts[p].likesCount) == |Having(likes, LikePost, p)|
  }

  ghost predicate CommentsCounted(posts: map<Id, Post>, comments: map<Id, Comment>) {
    forall p :: p in posts ==> Num(posts[p].commentsCount) == |Having(comments, CommentPost, p)|
  }

  ghost predicate PostsCounted(users: map<Id, User>, posts: map<Id, Post>) {
    forall u :: u in users ==> Num(users[u].postsCount) == |Having(posts, PostAuthor, u)|
  }

  ghost predicate FollowsCounted(users: map<Id, User>, follows: map<Id, Follow>) {
    forall u :: u in users ==>
      && Num(users[u].followersCount) == |Having(follows, Followee, u)|
      && Num(users[u].followingCount) == |Having(follows, Follower, u)|
  }

  ghost predicate NoSelfFollow(follows: map<Id, Follow>) {
    forall f :: f in follows ==> follows[f].followerId != follows[f].followingId
  }

  ghost predicate LikesAttached(likes: map<Id, Like>, posts: map<Id, Post>) {
    forall l :: l in likes ==> likes[l].postId in posts
  }

  /** A profile with no field set, as the authentication library creates it. */
  const Blank: User := User(None, None, None, None, None, None, None, None, None, None, None, None, None)

  /** `ctx.db.get(id)` on one table. */
  function Get<R>(rows: map<Id, R>, id: Id): Option<Doc<R>> {
    if id in rows then Some(Doc(id, rows[id])) else None
  }

  /** The contents of the store. */
  datatype Tables = Tables(
    users: map<Id, User>,
    posts: map<Id, Post>,
    likes: map<Id, Like>,
    comments: map<Id, Comment>,
    follows: map<Id, Follow>,
    messages: map<Id, Message>,
    clock: nat)
  {
    /** Every row id, and the references `posts.authorId`, `likes.postId`,
        `comments.postId` and both ends of a follow, were issued before
        `clock`; at most one like per (post, user) and one follow per
        (follower, followee). Every mutation preserves this shape. */
    ghost predicate Valid() {
      && Below(users, clock)
      && Below(posts, clock)
      && Below(likes, clock)
      && Below(comments, clock)
      && Below(follows, clock)
      && Below(messages, clock)
      && (forall p :: p in posts ==> posts[p].authorId < clock)
      && (forall l :: l in likes ==> likes[l].postId < clock)
      && (forall c :: c in comments ==> comments[c].postId < clock)
      && (forall f :: f in follows ==> follows[f].followerId < clock && follows[f].followingId < clock)
      && UniqueRows(likes)
      && UniqueRows(follows)
    }

    ghost predicate Consistent() {
      && LikesCounted(posts, likes)
      && CommentsCounted(posts, comments)
      && PostsCounted(users, posts)
      && FollowsCounted(users, follows)
      && NoSelfFollow(follows)
      && LikesAttached(likes, posts)
    }

    /** The tables once `ctx.db.insert` has taken the next id. */
    function Issue(): Tables {
      this.(clock := clock + 1)
    }
  }

  /** What a mutation does: the tables afterwards and what it returned or threw. */
  datatype Step<T> = Step(after: Tables, result: Result<T>)

  /** The row of `rows` below `n` holding record `v`, found through an index
      that covers the whole record (the newest such row when there are several). */
  function FindRow<R(==)>(rows: map<Id, R>, n: nat, v: R): (r: Option<Id>)
    ensures r.Some? ==> r.value in rows && rows[r.value] == v
    ensures r.None? ==> forall id :: id in rows && id < n ==> rows[id] != v
  {
    if n == 0 then None
    else if n - 1 in rows && rows[n - 1] == v then Some(n - 1)
    else FindRow(rows, n - 1, v)
  }

  /** Inserting a row under a fresh id adds its record to the table's records. */
  lemma ValuesInsert<R>(rows: map<Id, R>, id: Id, v: R)
    requires id !in rows
    ensures rows[id := v].Values == rows.Values + {v}
  {
    forall x | x in rows.Values ensures x in rows[id := v].Values {
      var k :| k in rows && rows[k] == x;
      assert rows[id := v][k] == x;
    }
    assert rows[id := v][id] == v;
  }

  /** Deleting a row removes its record from the table's records when no other row holds it. */
  lemma ValuesRemove<R>(rows: map<Id, R>, id: Id)
    requires id in rows && UniqueRows(rows)
    ensures (rows - {id}).Values == rows.Values - {rows[id]}
  {
    forall x | x in rows.Values && x != rows[id] ensures x in (rows - {id}).Values {
      var k :| k in rows && rows[k] == x;
      assert (rows - {id})[k] == x;
    }
  }

  /** Sign-up through the authentication library: a new user row with no field set. */
  function RegisterStep(t: Tables): Step<Id> {
    Step(t.Issue().(users := t.users[t.clock := Blank]), Ok(t.clock))
  }

  /** A new account is a fresh users id. */
  lemma RegisterValid(t: Tables)
    requires t.Valid()
    ensures RegisterStep(t).after.Valid()
    ensures t.clock !in t.users && t.clock < RegisterStep(t).after.clock
  {
  }

  /** A user who has no posts and no follow edges yet starts with unset counters that agree with the rows. */
  lemma NewUserCounted(users: map<Id, User>, posts: map<Id, Post>, follows: map<Id, Follow>, id: Id)
    requires PostsCounted(users, posts) && FollowsCounted(users, follows)
    requires forall p :: p in posts ==> posts[p].authorId != id
    requires forall f :: f in follows ==> follows[f].followerId != id && follows[f].followingId != id
    ensures PostsCounted(users[id := Blank], posts) && FollowsCounted(users[id := Blank], follows)
  {
    assert Having(posts, PostAuthor, id) == {};
    assert Having(follows, Followee, id) == {} && Having(follows, Follower, id) == {};
  }

  /** A new account keeps every counter equal to its row count. */
  lemma RegisterConsistent(t: Tables)
    requires t.Valid() && t.Consistent()
    ensures RegisterStep(t).after.Consistent()
  {
    NewUserCounted(t.users, t.posts, t.follows, t.clock);
  }

  /** Changing posts without touching their comment counters keeps comment counting. */
  lemma CommentsCountedFrame(posts: map<Id, Post>, posts': map<Id, Post>, comments: map<Id, Comment>)
    requires CommentsCounted(posts, comments)
    requires posts'.Keys == posts.Keys
    requires forall p :: p in posts ==> posts'[p].commentsCount == posts[p].commentsCount
    ensures CommentsCounted(posts', comments)
  {
  }

  /** Changing posts without touching their like counters keeps like counting. */
  lemma LikesCountedFrame(posts: map<Id, Post>, posts': map<Id, Post>, likes: map<Id, Like>)
    requires LikesCounted(posts, likes)
    requires posts'.Keys == posts.Keys
    requires forall p :: p in posts ==> posts'[p].likesCount == posts[p].likesCount
    ensures LikesCounted(posts', likes)
  {
  }

  /** Patching one post without changing its author keeps every user's post count. */
  lemma PostsCountedPatch(users: map<Id, User>, posts: map<Id, Post>, p: Id, post: Post)
    requires PostsCounted(users, posts)
    requires p in posts && post.authorId == posts[p].authorId
    ensures PostsCounted(users, posts[p := post])
  {
    forall u | u in users ensures Num(users[u].postsCount) == |Having(posts[p := post], PostAuthor, u)| {
      HavingPatch(posts, PostAuthor, u, p, post);
    }
  }

  /** Changing users without touching their post counters keeps post counting. */
  lemma PostsCountedFrame(users: map<Id, User>, users': map<Id, User>, posts: map<Id, Post>)
    requires PostsCounted(users, posts)
    requires users'.Keys == users.Keys
    requires forall u :: u in users ==> users'[u].postsCount == users[u].postsCount
    ensures PostsCounted(users', posts)
  {
  }

  /** Changing users without touching their follow counters keeps follow counting. */
  lemma FollowsCountedFrame(users: map<Id, User>, users': map<Id, User>, follows: map<Id, Follow>)
    requires FollowsCounted(users, follows)
    requires users'.Keys == users.Keys
    requires forall u :: u in users ==> users'[u].followersCount == users[u].followersCount
    requires forall u :: u in users ==> users'[u].followingCount == users[u].followingCount
    ensures FollowsCounted(users', follows)
  {
  }

  /** The store object the handlers receive as `ctx.db`. */
  class Store {
    var users: map<Id, User>
    var posts: map<Id, Post>
    var likes: map<Id, Like>
    var comments: map<Id, Comment>
    var follows: map<Id, Follow>
    var messages: map<Id, Message>
    /** The next id to issue; every issued id is below it. */
    var clock: nat

    /** An empty store. */
    constructor ()
      ensures State() == Tables(map[], map[], map[], map[], map[], map[], 0)
      ensures Valid() && Consistent()
    {
      users, posts, likes, comments, follows, messages := map[], map[], map[], map[], map[], map[];
      clock := 0;
    }

    function State(): Tables
      reads this
    {
      Tables(users, posts, likes, comments, follows, messages, clock)
    }

    ghost predicate Valid()
      reads this
    {
      State().Valid()
    }

    ghost predicate Consistent()
      reads this
    {
      State().Consistent()
    }

    /** `ctx.db.insert` takes the next id from the counter. */
    method NewId() returns (id: Id)
      modifies this`clock
      ensures id == old(clock)
      ensures State() == old(State()).Issue()
    {
      id := clock;
      clock := clock + 1;
    }

    /** Sign-up through the authentication library (not itself part of this model). */
    method Register() returns (id: Id)
      requires Valid()
      modifies this
      ensures Step(State(), Ok(id)) == RegisterStep(old(State()))
      ensures Valid() && (old(Consistent()) ==> Consistent())
    {
      RegisterValid(State());
      if Consistent() {
        RegisterConsistent(State());
      }
      id := NewId();
      users := users[id := Blank];
    }
  }
}
