/**
 * Profiles (convex/users.ts): the signed-in user's own profile, lookups by
 * username and by id, the three-way user search, the list of all other
 * users, the suggestions of users to follow, and `updateProfile`, which
 * patches only the fields it is given.
 */
module Users {
  import opened Schema
  import opened Query
  import opened Text
  import opened Database
  import opened Follows

  /** `getCurrentUser`: the caller's profile; nothing when no one is signed in or the profile is gone. */
  function GetCurrentUser(t: Tables, caller: Option<Id>): (r: Option<Doc<User>>)
    ensures r.Some? <==> caller.Some? && caller.value in t.users
    ensures r.Some? ==> r.value.id == caller.value && r.value.val == t.users[caller.value]
  {
    if caller.None? then None else Get(t.users, caller.value)
  }

  /** `getUserById`: the profile with that id, if it exists. */
  function GetUserById(t: Tables, userId: Id): (r: Option<Doc<User>>)
    ensures r.Some? <==> userId in t.users
    ensures r.Some? ==> r.value == Doc(userId, t.users[userId])
  {
    Get(t.users, userId)
  }

  /** The profiles whose username is `username`, oldest first (the `by_username` index). */
  function WithUsername(t: Tables, username: string): (r: seq<Doc<User>>)
    ensures Ascending(r)
    ensures forall d :: d in r <==> d.id in t.users && d.id < t.clock && d.val == t.users[d.id] && d.val.username == Some(username)
  {
    Select(t.users, t.clock, (d: Doc<User>) => d.val.username == Some(username))
  }

  /** In a valid store every profile with that username is found. */
  lemma WithUsernameFinds(t: Tables, username: string, u: Id)
    requires t.Valid() && u in t.users && t.users[u].username == Some(username)
    ensures Doc(u, t.users[u]) in WithUsername(t, username)
  {
    assert u < t.clock;
  }

  /** `getUserByUsername`: the one profile with that username, nothing when
      there is none, and the `.unique()` failure when several profiles share
      it (`updateProfile` does not keep usernames unique). */
  function GetUserByUsername(t: Tables, username: string): (r: Result<Option<Doc<User>>>)
    ensures r.Ok? && r.value.Some? ==>
            && r.value.value.id in t.users && r.value.value.val == t.users[r.value.value.id]
            && r.value.value.val.username == Some(username)
  {
    var found := WithUsername(t, username);
    if |found| > 1 then Err(NotUnique)
    else if found == [] then Ok(None)
    else
      assert found[0] in found;
      Ok(Some(found[0]))
  }

  /** In a valid store the lookup by username finds nothing exactly when no profile has that username. */
  lemma UserByUsernameMissing(t: Tables, username: string)
    requires t.Valid()
    ensures GetUserByUsername(t, username) == Ok(None)
            <==> forall u :: u in t.users ==> t.users[u].username != Some(username)
  {
    var found := WithUsername(t, username);
    if exists u :: u in t.users && t.users[u].username == Some(username) {
      var u :| u in t.users && t.users[u].username == Some(username);
      assert Doc(u, t.users[u]) in found;
    }
    if found != [] {
      assert found[0] in found;
    }
  }

  /** Two profiles have `username`. */
  ghost predicate Shared(t: Tables, username: string) {
    exists u, v ::
      && u in t.users && v in t.users && u != v
      && t.users[u].username == Some(username) && t.users[v].username == Some(username)
  }

  /** A sequence holding two different elements has at least two. */
  lemma TwoMembers<T>(s: seq<T>, x: T, y: T)
    requires x in s && y in s && x != y
    ensures |s| > 1
  {
  }

  /** The lookup by username throws only when two profiles share it. */
  lemma UserByUsernameThrows(t: Tables, username: string)
    requires t.Valid()
    ensures GetUserByUsername(t, username).Err? ==> Shared(t, username)
  {
    var found := WithUsername(t, username);
    if |found| > 1 {
      var a, b := found[0], found[1];
      assert a in found && b in found;
      assert a.id != b.id;
    }
  }

  /** In a valid store the lookup by username throws whenever two profiles share it. */
  lemma UserByUsernameSharedThrows(t: Tables, username: string)
    requires t.Valid() && Shared(t, username)
    ensures GetUserByUsername(t, username) == Err(NotUnique)
  {
    var found := WithUsername(t, username);
    var u, v :|
      && u in t.users && v in t.users && u != v
      && t.users[u].username == Some(username) && t.users[v].username == Some(username);
    WithUsernameFinds(t, username, u);
    WithUsernameFinds(t, username, v);
    TwoMembers(found, Doc(u, t.users[u]), Doc(v, t.users[v]));
  }

  /** `self.findIndex(u => u._id === id)`: the first position holding `id`
      (the length of `s` when there is none, where JavaScript says -1). */
  function FindIndex<R>(s: seq<Doc<R>>, id: Id): (r: nat)
    ensures r <= |s|
    ensures r < |s| ==> s[r].id == id
    ensures forall j :: 0 <= j < r ==> s[j].id != id
  {
    if s == [] then 0
    else if s[0].id == id then 0
    else 1 + FindIndex(s[1..], id)
  }

  /** The documents of `s` from position `i` on that are the first of `s`
      with their id: `filter((user, index, self) => index === self.findIndex(...))`.
      They come in the order of their first occurrence. */
  function DedupFrom<R>(s: seq<Doc<R>>, i: nat): (r: seq<Doc<R>>)
    requires i <= |s|
    ensures forall k :: 0 <= k < |r| ==> i <= FindIndex(s, r[k].id) < |s| && s[FindIndex(s, r[k].id)] == r[k]
    ensures forall k, l :: 0 <= k < l < |r| ==> FindIndex(s, r[k].id) < FindIndex(s, r[l].id)
    decreases |s| - i
  {
    if i == |s| then []
    else if FindIndex(s, s[i].id) == i then [s[i]] + DedupFrom(s, i + 1)
    else DedupFrom(s, i + 1)
  }

  /** Every id of `s` from position `i` on whose first occurrence is at or
      after `i` keeps that first occurrence. */
  lemma {:induction false} DedupFromComplete<R>(s: seq<Doc<R>>, i: nat, j: nat)
    requires i <= j < |s| && i <= FindIndex(s, s[j].id)
    ensures s[FindIndex(s, s[j].id)] in DedupFrom(s, i)
    decreases |s| - i
  {
    if FindIndex(s, s[j].id) != i {
      DedupFromComplete(s, i + 1, j);
    }
  }

  /** `allUsers.filter(...)`: the first occurrence of every id, in order; no id twice. */
  function Dedup<R>(s: seq<Doc<R>>): (r: seq<Doc<R>>)
    ensures forall k :: 0 <= k < |r| ==> FindIndex(s, r[k].id) < |s| && r[k] == s[FindIndex(s, r[k].id)]
    ensures forall k, l :: 0 <= k < l < |r| ==> FindIndex(s, r[k].id) < FindIndex(s, r[l].id)
    ensures forall k, l :: 0 <= k < l < |r| ==> r[k].id != r[l].id
    ensures forall j :: 0 <= j < |s| ==> s[FindIndex(s, s[j].id)] in r
  {
    var r := DedupFrom(s, 0);
    forall j | 0 <= j < |s| ensures s[FindIndex(s, s[j].id)] in r {
      DedupFromComplete(s, 0, j);
    }
    r
  }

  /** The name branch's filter: a name is set and lies in `[lo, lo + "￿")`. */
  predicate NameInRange(name: Option<string>, lo: string) {
    name.Some? && !Less(name.value, lo) && Less(name.value, lo + [Top])
  }

  /** The profiles, oldest first, whose name lies in the range that starts at the lower-cased query. */
  function NameMatches(t: Tables, query: string): (r: seq<Doc<User>>)
    ensures forall d :: d in r <==> d.id in t.users && d.id < t.clock && d.val == t.users[d.id] && NameInRange(d.val.name, Lower(query))
  {
    Select(t.users, t.clock, (d: Doc<User>) => NameInRange(d.val.name, Lower(query)))
  }

  /** The profiles, oldest first, whose email is exactly the query (the `by_email` index). */
  function EmailMatches(t: Tables, query: string): (r: seq<Doc<User>>)
    ensures forall d :: d in r <==> d.id in t.users && d.id < t.clock && d.val == t.users[d.id] && d.val.email == Some(query)
  {
    Select(t.users, t.clock, (d: Doc<User>) => d.val.email == Some(query))
  }

  /** The name branch: the first ten name matches. */
  function ByName(t: Tables, query: string): (r: seq<Doc<User>>)
    ensures |r| <= 10
  {
    Take(NameMatches(t, query), 10)
  }

  /** The email branch: the first five email matches. */
  function ByEmail(t: Tables, query: string): (r: seq<Doc<User>>)
    ensures |r| <= 5
  {
    Take(EmailMatches(t, query), 5)
  }

  /** The three branches one after the other: ten username hits, then the
      name matches, then the email matches. */
  function Merged(t: Tables, query: string, usernameHits: seq<Doc<User>>): (r: seq<Doc<User>>)
    ensures |r| <= 25
  {
    Take(usernameHits, 10) + ByName(t, query) + ByEmail(t, query)
  }

  /** `searchUsers`: nothing for a blank query; otherwise the first twenty
      distinct profiles of the merged branches. `usernameHits` is the
      username search index's answer for the query, best match first. */
  function SearchUsers(t: Tables, query: string, usernameHits: seq<Doc<User>>): (r: seq<Doc<User>>)
    ensures |r| <= 20
    ensures forall k, l :: 0 <= k < l < |r| ==> r[k].id != r[l].id
    ensures forall k :: 0 <= k < |r| ==>
              var s := Merged(t, query, usernameHits);
              FindIndex(s, r[k].id) < |s| && r[k] == s[FindIndex(s, r[k].id)]
  {
    if Trim(query) == [] then []
    else
      var unique := Dedup(Merged(t, query, usernameHits));
      var r := Take(unique, 20);
      assert forall k :: 0 <= k < |r| ==> r[k] == unique[k];
      r
  }

  /** Cutting the deduplicated list at `n` keeps the earliest ids: an id
      whose first occurrence comes before that of a kept row is kept too. */
  lemma TakeDedupPrecedence<R>(s: seq<Doc<R>>, n: nat, k: nat, j: nat)
    requires k < |Take(Dedup(s), n)|
    requires j < FindIndex(s, Take(Dedup(s), n)[k].id)
    ensures s[FindIndex(s, s[j].id)] in Take(Dedup(s), n)
  {
    var unique := Dedup(s);
    var first := s[FindIndex(s, s[j].id)];
    assert first in unique;
    var m :| 0 <= m < |unique| && unique[m] == first;
    assert FindIndex(s, unique[m].id) <= j;
    if k <= m {
      DedupOrdered(s, k, m);
      assert false;
    }
    assert Take(unique, n)[m] == first;
  }

  /** Position in the deduplicated list follows first occurrence in the input. */
  lemma DedupOrdered<R>(s: seq<Doc<R>>, a: nat, b: nat)
    requires a <= b < |Dedup(s)|
    ensures FindIndex(s, Dedup(s)[a].id) <= FindIndex(s, Dedup(s)[b].id)
  {
  }

  /** The cut at twenty keeps the earliest ids: for a query that is not
      blank, an id whose first occurrence among the username, name and email
      hits (in that order) comes before that of a kept profile is kept too. */
  lemma SearchUsersPrecedence(t: Tables, query: string, usernameHits: seq<Doc<User>>, k: nat, j: nat)
    requires Trim(query) != []
    requires k < |SearchUsers(t, query, usernameHits)|
    requires j < FindIndex(Merged(t, query, usernameHits), SearchUsers(t, query, usernameHits)[k].id)
    ensures var s := Merged(t, query, usernameHits);
            s[FindIndex(s, s[j].id)] in SearchUsers(t, query, usernameHits)
  {
    var s := Merged(t, query, usernameHits);
    assert SearchUsers(t, query, usernameHits) == Take(Dedup(s), 20);
    TakeDedupPrecedence(s, 20, k, j);
  }

  /** A query of white space alone finds no one. */
  lemma SearchUsersBlank(t: Tables, query: string, usernameHits: seq<Doc<User>>)
    requires forall i :: 0 <= i < |query| ==> IsSpace(query[i])
    ensures SearchUsers(t, query, usernameHits) == []
  {
    TrimmedEmpty(query);
  }

  /** Every profile the name branch finds is stored and its name starts
      with the lower-cased query (and continues, if at all, below U+FFFF);
      when it finds fewer than ten, it finds every such profile. */
  lemma ByNameMatches(t: Tables, query: string)
    requires t.Valid()
    ensures forall d :: d in ByName(t, query) ==>
      && d.id in t.users && d.val == t.users[d.id] && d.val.name.Some?
      && var name, lo := d.val.name.value, Lower(query);
         |lo| <= |name| && name[..|lo|] == lo && (|name| == |lo| || name[|lo|] < Top)
    ensures |ByName(t, query)| < 10 ==>
      forall u :: u in t.users && NameInRange(t.users[u].name, Lower(query)) ==> Doc(u, t.users[u]) in ByName(t, query)
  {
    TakeMembers(NameMatches(t, query), 10);
    forall d | d in ByName(t, query)
      ensures && d.id in t.users && d.val == t.users[d.id] && d.val.name.Some?
              && var name, lo := d.val.name.value, Lower(query);
                 |lo| <= |name| && name[..|lo|] == lo && (|name| == |lo| || name[|lo|] < Top)
    {
      PrefixRange(d.val.name.value, Lower(query));
    }
  }

  /** Every profile the email branch finds is stored and has exactly the
      query as its email; when it finds fewer than five, it finds them all. */
  lemma ByEmailMatches(t: Tables, query: string)
    requires t.Valid()
    ensures forall d :: d in ByEmail(t, query) ==> d.id in t.users && d.val == t.users[d.id] && d.val.email == Some(query)
    ensures |ByEmail(t, query)| < 5 ==>
      forall u :: u in t.users && t.users[u].email == Some(query) ==> Doc(u, t.users[u]) in ByEmail(t, query)
  {
    TakeMembers(EmailMatches(t, query), 5);
  }

  /** Fewer than twenty results means no profile of the merged branches was
      dropped: every id found by some branch is in the result. */
  lemma SearchUsersComplete(t: Tables, query: string, usernameHits: seq<Doc<User>>, j: nat)
    requires Trim(query) != [] && j < |Merged(t, query, usernameHits)|
    requires |SearchUsers(t, query, usernameHits)| < 20
    ensures exists k :: 0 <= k < |SearchUsers(t, query, usernameHits)|
                        && SearchUsers(t, query, usernameHits)[k].id == Merged(t, query, usernameHits)[j].id
  {
    var s := Merged(t, query, usernameHits);
    var unique := Dedup(s);
    assert SearchUsers(t, query, usernameHits) == unique;
    var d := s[FindIndex(s, s[j].id)];
    assert d in unique;
    var k :| 0 <= k < |unique| && unique[k] == d;
  }

  /** `getAllUsers`: up to fifty profiles other than the caller's, oldest
      first; nothing when no one is signed in. */
  function GetAllUsers(t: Tables, caller: Option<Id>): (r: seq<Doc<User>>)
    ensures caller.None? ==> r == []
    ensures |r| <= 50
  {
    if caller.None? then []
    else Take(Select(t.users, t.clock, (d: Doc<User>) => d.id != caller.value), 50)
  }

  /** Every listed profile is stored and is not the caller's, the list is
      oldest first, and a list shorter than fifty holds every other profile. */
  lemma AllUsersListed(t: Tables, me: Id)
    requires t.Valid()
    ensures forall d :: d in GetAllUsers(t, Some(me)) ==> d.id in t.users && d.val == t.users[d.id] && d.id != me
    ensures Ascending(GetAllUsers(t, Some(me)))
    ensures |GetAllUsers(t, Some(me))| < 50 ==>
            forall u :: u in t.users && u != me ==> Doc(u, t.users[u]) in GetAllUsers(t, Some(me))
  {
    TakeMembers(Select(t.users, t.clock, (d: Doc<User>) => d.id != me), 50);
  }

  /** `following.map(f => f.followingId)`. */
  function FollowedIds(rows: seq<Doc<Follow>>): (r: seq<Id>)
    ensures |r| == |rows|
    ensures forall i :: 0 <= i < |r| ==> r[i] == rows[i].val.followingId
  {
    if rows == [] then [] else [rows[0].val.followingId] + FollowedIds(rows[1..])
  }

  /** The ids `getSuggestedUsers` leaves out: those the user follows, then the user. */
  function Excluded(t: Tables, me: Id): seq<Id> {
    FollowedIds(Lookup(t.follows, t.clock, Follower, me)) + [me]
  }

  /** In a valid store the excluded ids are the user and exactly those the user follows. */
  lemma ExcludedIds(t: Tables, me: Id, x: Id)
    requires t.Valid()
    ensures x in Excluded(t, me) <==> x == me || Following(t, me, x)
  {
    var rows := Lookup(t.follows, t.clock, Follower, me);
    var ids := FollowedIds(rows);
    if Following(t, me, x) {
      var f :| f in t.follows && t.follows[f] == Follow(me, x);
      assert Doc(f, t.follows[f]) in rows;
      var i :| 0 <= i < |rows| && rows[i] == Doc(f, t.follows[f]);
      assert ids[i] == x;
    }
    if x in ids {
      var i :| 0 <= i < |ids| && ids[i] == x;
      assert rows[i] in rows;
    }
    assert Excluded(t, me) == ids + [me];
  }

  /** The profiles `getSuggestedUsers` may offer: neither the user nor followed, oldest first. */
  function Unfollowed(t: Tables, me: Id): (r: seq<Doc<User>>)
    ensures Ascending(r)
    ensures forall d :: d in r <==> d.id in t.users && d.id < t.clock && d.val == t.users[d.id] && d.id !in Excluded(t, me)
  {
    var excluded := Excluded(t, me);
    Select(t.users, t.clock, (d: Doc<User>) => d.id !in excluded)
  }

  /** `getSuggestedUsers`: the first five profiles, oldest first, that are
      neither the caller nor followed by the caller; nothing when no one is signed in. */
  function GetSuggestedUsers(t: Tables, caller: Option<Id>): (r: seq<Doc<User>>)
    ensures caller.None? ==> r == []
    ensures |r| <= 5
  {
    if caller.None? then [] else Take(Unfollowed(t, caller.value), 5)
  }

  /** No suggestion is the caller or someone the caller follows; the
      suggestions are stored profiles, oldest first. */
  lemma SuggestedSound(t: Tables, me: Id)
    requires t.Valid()
    ensures forall d :: d in GetSuggestedUsers(t, Some(me)) ==>
              d.id in t.users && d.val == t.users[d.id] && d.id != me && !Following(t, me, d.id)
    ensures Ascending(GetSuggestedUsers(t, Some(me)))
  {
    TakeMembers(Unfollowed(t, me), 5);
    forall d | d in GetSuggestedUsers(t, Some(me)) ensures d.id != me && !Following(t, me, d.id) {
      ExcludedIds(t, me, d.id);
    }
  }

  /** Fewer than five suggestions means every profile that is neither the
      caller nor followed by the caller is among them. */
  lemma SuggestedComplete(t: Tables, me: Id, u: Id)
    requires t.Valid()
    requires u in t.users && u != me && !Following(t, me, u)
    requires |GetSuggestedUsers(t, Some(me))| < 5
    ensures Doc(u, t.users[u]) in GetSuggestedUsers(t, Some(me))
  {
    ExcludedIds(t, me, u);
  }

  /** The fields `updateProfile` accepts; `None` is an argument left `undefined`. */
  datatype ProfileArgs = ProfileArgs(
    name: Option<string>,
    username: Option<string>,
    bio: Option<string>,
    dateOfBirth: Option<string>,
    website: Option<string>,
    location: Option<string>,
    avatar: Option<BlobId>)

  /** An update with no field set. */
  const NoUpdates: ProfileArgs := ProfileArgs(None, None, None, None, None, None, None)

  /** `db.patch(id, updates)`: the fields `updates` sets replace the profile's, the others stay. */
  function Patch(u: User, updates: ProfileArgs): User {
    u.(name := if updates.name.Some? then updates.name else u.name,
       username := if updates.username.Some? then updates.username else u.username,
       bio := if updates.bio.Some? then updates.bio else u.bio,
       dateOfBirth := if updates.dateOfBirth.Some? then updates.dateOfBirth else u.dateOfBirth,
       website := if updates.website.Some? then updates.website else u.website,
       location := if updates.location.Some? then updates.location else u.location,
       avatar := if updates.avatar.Some? then updates.avatar else u.avatar)
  }

  /** A patch sets what it is given, keeps every other field (email, phone,
      the verified flag and all three counters among them), and applying it
      a second time changes nothing; an empty patch changes nothing at all. */
  lemma PatchEffect(u: User, updates: ProfileArgs)
    ensures updates.name.Some? ==> Patch(u, updates).name == updates.name
    ensures updates.name.None? ==> Patch(u, updates).name == u.name
    ensures updates.username.Some? ==> Patch(u, updates).username == updates.username
    ensures updates.username.None? ==> Patch(u, updates).username == u.username
    ensures updates.bio.Some? ==> Patch(u, updates).bio == updates.bio
    ensures updates.bio.None? ==> Patch(u, updates).bio == u.bio
    ensures updates.dateOfBirth.Some? ==> Patch(u, updates).dateOfBirth == updates.dateOfBirth
    ensures updates.dateOfBirth.None? ==> Patch(u, updates).dateOfBirth == u.dateOfBirth
    ensures updates.website.Some? ==> Patch(u, updates).website == updates.website
    ensures updates.website.None? ==> Patch(u, updates).website == u.website
    ensures updates.location.Some? ==> Patch(u, updates).location == updates.location
    ensures updates.location.None? ==> Patch(u, updates).location == u.location
    ensures updates.avatar.Some? ==> Patch(u, updates).avatar == updates.avatar
    ensures updates.avatar.None? ==> Patch(u, updates).avatar == u.avatar
    ensures Patch(u, updates).(bio := u.bio, dateOfBirth := u.dateOfBirth, website := u.website, location := u.location,
                               name := u.name, username := u.username, avatar := u.avatar) == u
    ensures Patch(Patch(u, updates), updates) == Patch(u, updates)
    ensures Patch(u, NoUpdates) == u
  {
  }

  /** `updateProfile`: what the handler does to the tables and what it returns. */
  function UpdateProfileStep(t: Tables, caller: Option<Id>, args: ProfileArgs): Step<Id> {
    if caller.None? then Step(t, Err(NotAuthenticated))
    else if caller.value !in t.users then Step(t, Err(MissingDocument))
    else Step(t.(users := t.users[caller.value := Patch(t.users[caller.value], args)]), Ok(caller.value))
  }

  /** Updating throws, and writes nothing, without a signed-in caller or
      when the caller's profile is gone; otherwise it returns the caller's id,
      patches the caller's profile, and changes no other profile or table. */
  lemma UpdateProfileEffect(t: Tables, caller: Option<Id>, args: ProfileArgs)
    ensures UpdateProfileStep(t, caller, args).result.Err? <==> caller.None? || caller.value !in t.users
    ensures caller.None? ==> UpdateProfileStep(t, caller, args).result == Err(NotAuthenticated)
    ensures UpdateProfileStep(t, caller, args).result.Err? ==> UpdateProfileStep(t, caller, args).after == t
    ensures UpdateProfileStep(t, caller, args).result.Ok? ==>
            && UpdateProfileStep(t, caller, args).result == Ok(caller.value)
            && UpdateProfileStep(t, caller, args).after.users.Keys == t.users.Keys
            && UpdateProfileStep(t, caller, args).after.users[caller.value] == Patch(t.users[caller.value], args)
            && (forall u :: u in t.users && u != caller.value ==> UpdateProfileStep(t, caller, args).after.users[u] == t.users[u])
            && UpdateProfileStep(t, caller, args).after.(users := t.users) == t
  {
  }

  /** Updating keeps the store valid and, when it was consistent, consistent:
      no counter is touched. */
  lemma UpdateProfileKeeps(t: Tables, caller: Option<Id>, args: ProfileArgs)
    requires t.Valid()
    ensures UpdateProfileStep(t, caller, args).after.Valid()
    ensures t.Consistent() ==> UpdateProfileStep(t, caller, args).after.Consistent()
  {
    var after := UpdateProfileStep(t, caller, args).after;
    UpdateProfileEffect(t, caller, args);
    if caller.Some? && caller.value in t.users && t.Consistent() {
      PostsCountedFrame(t.users, after.users, t.posts);
      FollowsCountedFrame(t.users, after.users, t.follows);
    }
  }

  /** `updateProfile` against the store object: the patch is built one
      argument at a time, then applied. */
  method UpdateProfile(db: Store, caller: Option<Id>, args: ProfileArgs) returns (r: Result<Id>)
    requires db.Valid()
    modifies db
    ensures Step(db.State(), r) == UpdateProfileStep(old(db.State()), caller, args)
    ensures db.Valid() && (old(db.Consistent()) ==> db.Consistent())
  {
    UpdateProfileKeeps(db.State(), caller, args);
    if caller.None? {
      return Err(NotAuthenticated);
    }
    var userId := caller.value;
    var updates := NoUpdates;
    if args.name.Some? { updates := updates.(name := args.name); }
    if args.username.Some? { updates := updates.(username := args.username); }
    if args.bio.Some? { updates := updates.(bio := args.bio); }
    if args.dateOfBirth.Some? { updates := updates.(dateOfBirth := args.dateOfBirth); }
    if args.website.Some? { updates := updates.(website := args.website); }
    if args.location.Some? { updates := updates.(location := args.location); }
    if args.avatar.Some? { updates := updates.(avatar := args.avatar); }
    assert updates == args;
    var user := Get(db.users, userId);
    if user.None? {
      return Err(MissingDocument);
    }
    db.users := db.users[userId := Patch(user.value.val, updates)];
    return Ok(userId);
  }
}
