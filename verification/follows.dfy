/**
 * Follows (convex/follows.ts): `toggleFollow` adds or removes the edge from the
 * caller to another user and keeps both users' counters in step; the queries
 * list a user's followers and followings and test one edge.
 */
module Follows {
  import opened Schema
  import opened Counters
  import opened Query
  import opened Database

  /** User `a` follows user `b`. */
  ghost predicate Following(t: Tables, a: Id, b: Id) {
    Follow(a, b) in t.follows.Values
  }

  /** The edge from `a` to `b`, looked up through `by_follower_and_following` with `.unique()`. */
  function FindFollow(t: Tables, a: Id, b: Id): (r: Option<Id>)
    ensures r.Some? ==> r.value in t.follows && t.follows[r.value] == Follow(a, b)
    ensures r.None? ==> forall id :: id in t.follows && id < t.clock ==> t.follows[id] != Follow(a, b)
  {
    FindRow(t.follows, t.clock, Follow(a, b))
  }

  /** In a valid store the lookup finds an edge exactly when there is one. */
  lemma FindFollowFinds(t: Tables, a: Id, b: Id)
    requires t.Valid()
    ensures FindFollow(t, a, b).Some? <==> Following(t, a, b)
  {
    if Following(t, a, b) {
      var f :| f in t.follows && t.follows[f] == Follow(a, b);
    }
  }

  /** The unfollow branch: delete edge `f` from `a` to `b` and count one down on both ends. */
  function Unfollow(t: Tables, a: Id, b: Id, f: Id): Tables
    requires a in t.users && b in t.users
  {
    var users := t.users[a := t.users[a].(followingCount := Some(Decremented(t.users[a].followingCount)))];
    t.(follows := t.follows - {f},
       users := users[b := t.users[b].(followersCount := Some(Decremented(t.users[b].followersCount)))])
  }

  /** The follow branch: insert the edge from `a` to `b` under the next id and count one up on both ends. */
  function AddFollow(t: Tables, a: Id, b: Id): Tables
    requires a in t.users && b in t.users
  {
    var users := t.users[a := t.users[a].(followingCount := Some(Incremented(t.users[a].followingCount)))];
    t.Issue().(follows := t.follows[t.clock := Follow(a, b)],
               users := users[b := t.users[b].(followersCount := Some(Incremented(t.users[b].followersCount)))])
  }

  /** Unfollowing removes exactly that edge and counts both ends one down, floored at zero. */
  lemma UnfollowEffect(t: Tables, a: Id, b: Id, f: Id)
    requires t.Valid() && a in t.users && b in t.users && a != b
    requires f in t.follows && t.follows[f] == Follow(a, b)
    ensures Unfollow(t, a, b, f).Valid()
    ensures Unfollow(t, a, b, f).follows.Values == t.follows.Values - {Follow(a, b)}
    ensures Num(Unfollow(t, a, b, f).users[a].followingCount) == Decremented(t.users[a].followingCount)
    ensures Num(Unfollow(t, a, b, f).users[b].followersCount) == Decremented(t.users[b].followersCount)
  {
    ValuesRemove(t.follows, f);
  }

  /** Following adds exactly that edge and counts both ends one up. */
  lemma AddFollowEffect(t: Tables, a: Id, b: Id)
    requires t.Valid() && a in t.users && b in t.users && a != b && !Following(t, a, b)
    ensures AddFollow(t, a, b).Valid()
    ensures AddFollow(t, a, b).follows.Values == t.follows.Values + {Follow(a, b)}
    ensures Num(AddFollow(t, a, b).users[a].followingCount) == Num(t.users[a].followingCount) + 1
    ensures Num(AddFollow(t, a, b).users[b].followersCount) == Num(t.users[b].followersCount) + 1
  {
    ValuesInsert(t.follows, t.clock, Follow(a, b));
    assert forall id :: id in t.follows ==> t.follows[id] != Follow(a, b);
  }

  /** Unfollowing changes no table but follows and users, no user but the two
      ends, and of those only the follower's following count and the followed
      user's follower count. */
  lemma UnfollowFrame(t: Tables, a: Id, b: Id, f: Id)
    requires a in t.users && b in t.users && a != b
    ensures Unfollow(t, a, b, f).users.Keys == t.users.Keys
    ensures forall u :: u in t.users && u != a && u != b ==> Unfollow(t, a, b, f).users[u] == t.users[u]
    ensures Unfollow(t, a, b, f).users[a] == t.users[a].(followingCount := Unfollow(t, a, b, f).users[a].followingCount)
    ensures Unfollow(t, a, b, f).users[b] == t.users[b].(followersCount := Unfollow(t, a, b, f).users[b].followersCount)
    ensures Unfollow(t, a, b, f).(users := t.users, follows := t.follows) == t
  {
  }

  /** Following changes no table but follows and users, no user but the two
      ends, and of those only the follower's following count and the followed
      user's follower count. */
  lemma AddFollowFrame(t: Tables, a: Id, b: Id)
    requires a in t.users && b in t.users && a != b
    ensures AddFollow(t, a, b).users.Keys == t.users.Keys
    ensures forall u :: u in t.users && u != a && u != b ==> AddFollow(t, a, b).users[u] == t.users[u]
    ensures AddFollow(t, a, b).users[a] == t.users[a].(followingCount := AddFollow(t, a, b).users[a].followingCount)
    ensures AddFollow(t, a, b).users[b] == t.users[b].(followersCount := AddFollow(t, a, b).users[b].followersCount)
    ensures AddFollow(t, a, b).(users := t.users, follows := t.follows, clock := t.clock) == t
  {
  }

  /** Deleting an edge and counting one down on both of its ends keeps follow counting. */
  lemma UnfollowCounted(users: map<Id, User>, follows: map<Id, Follow>, f: Id)
    requires FollowsCounted(users, follows) && f in follows
    requires follows[f].followerId in users && follows[f].followingId in users
    requires follows[f].followerId != follows[f].followingId
    ensures var a, b := follows[f].followerId, follows[f].followingId;
            var users' := users[a := users[a].(followingCount := Some(Decremented(users[a].followingCount)))];
            FollowsCounted(users'[b := users[b].(followersCount := Some(Decremented(users[b].followersCount)))], follows - {f})
  {
    forall u | u in users
      ensures |Having(follows - {f}, Followee, u)| == |Having(follows, Followee, u)| - (if follows[f].followingId == u then 1 else 0)
      ensures |Having(follows - {f}, Follower, u)| == |Having(follows, Follower, u)| - (if follows[f].followerId == u then 1 else 0)
    {
      HavingRemove(follows, Followee, u, f);
      HavingRemove(follows, Follower, u, f);
    }
  }

  /** Inserting an edge under a fresh id and counting one up on both of its ends keeps follow counting. */
  lemma AddFollowCounted(users: map<Id, User>, follows: map<Id, Follow>, id: Id, a: Id, b: Id)
    requires FollowsCounted(users, follows) && id !in follows
    requires a in users && b in users && a != b
    ensures var users' := users[a := users[a].(followingCount := Some(Incremented(users[a].followingCount)))];
            FollowsCounted(users'[b := users[b].(followersCount := Some(Incremented(users[b].followersCount)))],
                           follows[id := Follow(a, b)])
  {
    forall u | u in users
      ensures |Having(follows[id := Follow(a, b)], Followee, u)| == |Having(follows, Followee, u)| + (if b == u then 1 else 0)
      ensures |Having(follows[id := Follow(a, b)], Follower, u)| == |Having(follows, Follower, u)| + (if a == u then 1 else 0)
    {
      HavingInsert(follows, Followee, u, id, Follow(a, b));
      HavingInsert(follows, Follower, u, id, Follow(a, b));
    }
  }

  /** Unfollowing keeps every counter equal to its row count and no one following themselves. */
  lemma UnfollowKeepsConsistent(t: Tables, a: Id, b: Id, f: Id)
    requires t.Consistent() && a in t.users && b in t.users && a != b
    requires f in t.follows && t.follows[f] == Follow(a, b)
    ensures Unfollow(t, a, b, f).Consistent()
  {
    UnfollowCounted(t.users, t.follows, f);
    UnfollowFrame(t, a, b, f);
    PostsCountedFrame(t.users, Unfollow(t, a, b, f).users, t.posts);
  }

  /** Following keeps every counter equal to its row count and, the two ends
      being different users, no one following themselves. */
  lemma AddFollowKeepsConsistent(t: Tables, a: Id, b: Id)
    requires t.Consistent() && a in t.users && b in t.users && a != b && t.clock !in t.follows
    ensures AddFollow(t, a, b).Consistent()
  {
    var after := AddFollow(t, a, b);
    AddFollowCounted(t.users, t.follows, t.clock, a, b);
    AddFollowFrame(t, a, b);
    assert after.posts == t.posts && after.likes == t.likes && after.comments == t.comments;
    PostsCountedFrame(t.users, after.users, t.posts);
  }

  /** `toggleFollow`: what the handler does to the tables and what it returns. */
  function ToggleFollowStep(t: Tables, caller: Option<Id>, target: Id): Step<bool> {
    if caller.None? then Step(t, Err(NotAuthenticated))
    else if caller.value == target then Step(t, Err(CannotFollowYourself))
    else
      var me := caller.value;
      var existing := FindFollow(t, me, target);
      if me !in t.users || target !in t.users then Step(t, Err(UserNotFound))
      else if existing.Some? then Step(Unfollow(t, me, target, existing.value), Ok(false))
      else Step(AddFollow(t, me, target), Ok(true))
  }

  /** The toggle throws, and writes nothing, without a signed-in caller, on the
      caller's own id, or when either profile is missing. */
  lemma ToggleFollowFails(t: Tables, caller: Option<Id>, target: Id)
    ensures ToggleFollowStep(t, caller, target).result.Err?
            <==> caller.None? || caller.value == target || caller.value !in t.users || target !in t.users
    ensures caller.None? ==> ToggleFollowStep(t, caller, target).result == Err(NotAuthenticated)
    ensures caller == Some(target) ==> ToggleFollowStep(t, caller, target).result == Err(CannotFollowYourself)
    ensures caller.Some? && caller.value != target && (caller.value !in t.users || target !in t.users)
            ==> ToggleFollowStep(t, caller, target).result == Err(UserNotFound)
    ensures ToggleFollowStep(t, caller, target).result.Err? ==> ToggleFollowStep(t, caller, target).after == t
  {
  }

  /** A successful toggle flips the edge from the caller to the target and no
      other edge, returns whether the caller now follows the target, and counts
      both ends one down (floored at zero) on an unfollow and one up on a follow. */
  lemma ToggleFollowFlips(t: Tables, me: Id, target: Id)
    requires t.Valid() && me != target && me in t.users && target in t.users
    ensures ToggleFollowStep(t, Some(me), target).after.Valid()
    ensures ToggleFollowStep(t, Some(me), target).result == Ok(!Following(t, me, target))
    ensures ToggleFollowStep(t, Some(me), target).after.follows.Values
            == if Following(t, me, target) then t.follows.Values - {Follow(me, target)}
               else t.follows.Values + {Follow(me, target)}
    ensures Num(ToggleFollowStep(t, Some(me), target).after.users[me].followingCount)
            == if Following(t, me, target) then Decremented(t.users[me].followingCount)
               else Num(t.users[me].followingCount) + 1
    ensures Num(ToggleFollowStep(t, Some(me), target).after.users[target].followersCount)
            == if Following(t, me, target) then Decremented(t.users[target].followersCount)
               else Num(t.users[target].followersCount) + 1
  {
    FindFollowFinds(t, me, target);
    var existing := FindFollow(t, me, target);
    if existing.Some? {
      UnfollowEffect(t, me, target, existing.value);
    } else {
      AddFollowEffect(t, me, target);
    }
  }

  /** A toggle keeps the store valid and, when it was consistent, consistent;
      in particular it never makes anyone follow themselves. */
  lemma ToggleFollowKeeps(t: Tables, caller: Option<Id>, target: Id)
    requires t.Valid()
    ensures ToggleFollowStep(t, caller, target).after.Valid()
    ensures t.Consistent() ==> ToggleFollowStep(t, caller, target).after.Consistent()
  {
    if caller.Some? && caller.value != target && caller.value in t.users && target in t.users {
      ToggleFollowFlips(t, caller.value, target);
      var existing := FindFollow(t, caller.value, target);
      if t.Consistent() {
        if existing.Some? {
          UnfollowKeepsConsistent(t, caller.value, target, existing.value);
        } else {
          AddFollowKeepsConsistent(t, caller.value, target);
        }
      }
    }
  }

  /** Toggling twice restores who follows whom. */
  lemma ToggleFollowTwice(t: Tables, me: Id, target: Id)
    requires t.Valid() && me != target && me in t.users && target in t.users
    ensures ToggleFollowStep(ToggleFollowStep(t, Some(me), target).after, Some(me), target).after.follows.Values
            == t.follows.Values
  {
    var m := ToggleFollowStep(t, Some(me), target).after;
    ToggleFollowFlips(t, me, target);
    ToggleFollowUsers(t, me, target);
    ToggleFollowFlips(m, me, target);
  }

  /** A successful toggle keeps the set of profiles. */
  lemma ToggleFollowUsers(t: Tables, me: Id, target: Id)
    requires me != target && me in t.users && target in t.users
    ensures ToggleFollowStep(t, Some(me), target).after.users.Keys == t.users.Keys
  {
    var existing := FindFollow(t, me, target);
    if existing.Some? {
      UnfollowFrame(t, me, target, existing.value);
    } else {
      AddFollowFrame(t, me, target);
    }
  }

  /** In a consistent store an edge makes both of its ends' counters positive. */
  lemma FollowedCountsPositive(t: Tables, me: Id, target: Id)
    requires t.Consistent() && me in t.users && target in t.users && Following(t, me, target)
    ensures Num(t.users[me].followingCount) > 0 && Num(t.users[target].followersCount) > 0
  {
    var f :| f in t.follows && t.follows[f] == Follow(me, target);
    assert f in Having(t.follows, Followee, target) && f in Having(t.follows, Follower, me);
  }

  /** In a consistent store, toggling twice restores both ends' counters. */
  lemma ToggleFollowTwiceCounts(t: Tables, me: Id, target: Id)
    requires t.Valid() && t.Consistent() && me != target && me in t.users && target in t.users
    ensures var a := ToggleFollowStep(ToggleFollowStep(t, Some(me), target).after, Some(me), target).after;
            && Num(a.users[me].followingCount) == Num(t.users[me].followingCount)
            && Num(a.users[target].followersCount) == Num(t.users[target].followersCount)
  {
    var m := ToggleFollowStep(t, Some(me), target).after;
    ToggleFollowFlips(t, me, target);
    ToggleFollowUsers(t, me, target);
    ToggleFollowFlips(m, me, target);
    if Following(t, me, target) {
      FollowedCountsPositive(t, me, target);
      IncrementUndoesDecrement(t.users[me].followingCount);
      IncrementUndoesDecrement(t.users[target].followersCount);
    } else {
      DecrementUndoesIncrement(t.users[me].followingCount);
      DecrementUndoesIncrement(t.users[target].followersCount);
    }
  }

  /** The profiles of the followers on the edges `rows`. */
  function FollowerProfiles(t: Tables, rows: seq<Doc<Follow>>): (r: seq<Option<Doc<User>>>)
    ensures |r| == |rows|
    ensures forall i :: 0 <= i < |r| ==> r[i] == Get(t.users, rows[i].val.followerId)
  {
    if rows == [] then [] else [Get(t.users, rows[0].val.followerId)] + FollowerProfiles(t, rows[1..])
  }

  /** The profiles of the followed users on the edges `rows`. */
  function FollowingProfiles(t: Tables, rows: seq<Doc<Follow>>): (r: seq<Option<Doc<User>>>)
    ensures |r| == |rows|
    ensures forall i :: 0 <= i < |r| ==> r[i] == Get(t.users, rows[i].val.followingId)
  {
    if rows == [] then [] else [Get(t.users, rows[0].val.followingId)] + FollowingProfiles(t, rows[1..])
  }

  /** `getFollowers`: one entry per edge into the user, oldest edge first,
      holding the follower's profile (absent when that profile is gone). */
  function GetFollowers(t: Tables, userId: Id): (r: seq<Option<Doc<User>>>)
    requires t.Valid()
    ensures |r| == |Having(t.follows, Followee, userId)|
  {
    LookupCount(t.follows, t.clock, Followee, userId);
    FollowerProfiles(t, Lookup(t.follows, t.clock, Followee, userId))
  }

  /** `getFollowing`: one entry per edge out of the user, oldest edge first,
      holding the followed user's profile (absent when that profile is gone). */
  function GetFollowing(t: Tables, userId: Id): (r: seq<Option<Doc<User>>>)
    requires t.Valid()
    ensures |r| == |Having(t.follows, Follower, userId)|
  {
    LookupCount(t.follows, t.clock, Follower, userId);
    FollowingProfiles(t, Lookup(t.follows, t.clock, Follower, userId))
  }

  /** Every profile `getFollowers` returns is that of a follower. */
  lemma FollowersSound(t: Tables, userId: Id)
    requires t.Valid()
    ensures forall d: Doc<User> :: Some(d) in GetFollowers(t, userId) ==>
      d.id in t.users && d.val == t.users[d.id] && Following(t, d.id, userId)
  {
    var rows := Lookup(t.follows, t.clock, Followee, userId);
    var r := GetFollowers(t, userId);
    forall d: Doc<User> | Some(d) in r ensures d.id in t.users && d.val == t.users[d.id] && Following(t, d.id, userId) {
      var i :| 0 <= i < |r| && r[i] == Some(d);
      assert rows[i] in rows;
      assert t.follows[rows[i].id] == Follow(d.id, userId);
    }
  }

  /** Every follower whose profile exists is in `getFollowers`. */
  lemma FollowersComplete(t: Tables, userId: Id)
    requires t.Valid()
    ensures forall u :: u in t.users && Following(t, u, userId) ==> Some(Doc(u, t.users[u])) in GetFollowers(t, userId)
  {
    var rows := Lookup(t.follows, t.clock, Followee, userId);
    var r := GetFollowers(t, userId);
    forall u | u in t.users && Following(t, u, userId) ensures Some(Doc(u, t.users[u])) in r {
      var f :| f in t.follows && t.follows[f] == Follow(u, userId);
      assert Doc(f, t.follows[f]) in rows;
      var i :| 0 <= i < |rows| && rows[i] == Doc(f, t.follows[f]);
      assert r[i] == Some(Doc(u, t.users[u]));
    }
  }

  /** Every profile `getFollowing` returns is that of a user the user follows. */
  lemma FollowingSound(t: Tables, userId: Id)
    requires t.Valid()
    ensures forall d: Doc<User> :: Some(d) in GetFollowing(t, userId) ==>
      d.id in t.users && d.val == t.users[d.id] && Following(t, userId, d.id)
  {
    var rows := Lookup(t.follows, t.clock, Follower, userId);
    var r := GetFollowing(t, userId);
    forall d: Doc<User> | Some(d) in r ensures d.id in t.users && d.val == t.users[d.id] && Following(t, userId, d.id) {
      var i :| 0 <= i < |r| && r[i] == Some(d);
      assert rows[i] in rows;
      assert t.follows[rows[i].id] == Follow(userId, d.id);
    }
  }

  /** Every followed user whose profile exists is in `getFollowing`. */
  lemma FollowingComplete(t: Tables, userId: Id)
    requires t.Valid()
    ensures forall u :: u in t.users && Following(t, userId, u) ==> Some(Doc(u, t.users[u])) in GetFollowing(t, userId)
  {
    var rows := Lookup(t.follows, t.clock, Follower, userId);
    var r := GetFollowing(t, userId);
    forall u | u in t.users && Following(t, userId, u) ensures Some(Doc(u, t.users[u])) in r {
      var f :| f in t.follows && t.follows[f] == Follow(userId, u);
      assert Doc(f, t.follows[f]) in rows;
      var i :| 0 <= i < |rows| && rows[i] == Doc(f, t.follows[f]);
      assert r[i] == Some(Doc(u, t.users[u]));
    }
  }

  /** In a consistent store the follower and following counts are the lengths of the two lists. */
  lemma FollowCountsMatchLists(t: Tables, userId: Id)
    requires t.Valid() && t.Consistent() && userId in t.users
    ensures |GetFollowers(t, userId)| == Num(t.users[userId].followersCount)
    ensures |GetFollowing(t, userId)| == Num(t.users[userId].followingCount)
  {
  }

  /** `isFollowing`: whether the caller follows the user; false when no one is signed in. */
  function IsFollowing(t: Tables, caller: Option<Id>, userId: Id): (r: bool)
    requires t.Valid()
    ensures r <==> caller.Some? && Following(t, caller.value, userId)
  {
    if caller.None? then false
    else
      FindFollowFinds(t, caller.value, userId);
      FindFollow(t, caller.value, userId).Some?
  }

  /** `toggleFollow` against the store object. */
  method ToggleFollow(db: Store, caller: Option<Id>, target: Id) returns (r: Result<bool>)
    requires db.Valid()
    modifies db
    ensures Step(db.State(), r) == ToggleFollowStep(old(db.State()), caller, target)
    ensures db.Valid() && (old(db.Consistent()) ==> db.Consistent())
  {
    ToggleFollowKeeps(db.State(), caller, target);
    if caller.None? {
      return Err(NotAuthenticated);
    }
    var me := caller.value;
    if me == target {
      return Err(CannotFollowYourself);
    }
    var existing := FindFollow(db.State(), me, target);
    var currentUser := Get(db.users, me);
    var targetUser := Get(db.users, target);
    if currentUser.None? || targetUser.None? {
      return Err(UserNotFound);
    }
    var mine, theirs := currentUser.value.val, targetUser.value.val;
    if existing.Some? {
      db.follows := db.follows - {existing.value};
      db.users := db.users[me := mine.(followingCount := Some(Decremented(mine.followingCount)))];
      db.users := db.users[target := theirs.(followersCount := Some(Decremented(theirs.followersCount)))];
      return Ok(false);
    } else {
      var id := db.NewId();
      db.follows := db.follows[id := Follow(me, target)];
      db.users := db.users[me := mine.(followingCount := Some(Incremented(mine.followingCount)))];
      db.users := db.users[target := theirs.(followersCount := Some(Incremented(theirs.followersCount)))];
      return Ok(true);
    }
  }
}
