/**
 * Direct messages (convex/messages.ts): `sendMessage` stores an unread
 * message, `getMessages` lists the conversation with one other user oldest
 * first, `getConversations` keeps the newest message per conversation
 * partner, and `markAsRead` lets the receiver mark a message read.
 */
module Messages {
  import opened Schema
  import opened Query
  import opened Database

  /** The insert `sendMessage` performs: an unread message from `me`. */
  function InsertMessage(t: Tables, me: Id, receiverId: Id, content: string): Tables {
    t.Issue().(messages := t.messages[t.clock := Message(me, receiverId, content, Some(false))])
  }

  /** `sendMessage`: what the handler does to the tables and what it returns. */
  function SendMessageStep(t: Tables, caller: Option<Id>, receiverId: Id, content: string): Step<Id> {
    if caller.None? then Step(t, Err(NotAuthenticated))
    else Step(InsertMessage(t, caller.value, receiverId, content), Ok(t.clock))
  }

  /** Sending throws, and writes nothing, exactly when no one is signed in. */
  lemma SendMessageFails(t: Tables, caller: Option<Id>, receiverId: Id, content: string)
    ensures SendMessageStep(t, caller, receiverId, content).result.Err? <==> caller.None?
    ensures caller.None? ==> SendMessageStep(t, caller, receiverId, content) == Step(t, Err(NotAuthenticated))
  {
  }

  /** A sent message is stored unread under a fresh id, from the caller to
      the receiver, and nothing but the messages changes. */
  lemma InsertMessageEffect(t: Tables, me: Id, receiverId: Id, content: string)
    requires t.Valid()
    ensures InsertMessage(t, me, receiverId, content).Valid()
    ensures t.clock !in t.messages
    ensures InsertMessage(t, me, receiverId, content).messages.Keys == t.messages.Keys + {t.clock}
    ensures forall m :: m in t.messages ==> InsertMessage(t, me, receiverId, content).messages[m] == t.messages[m]
    ensures var msg := InsertMessage(t, me, receiverId, content).messages[t.clock];
            msg.senderId == me && msg.receiverId == receiverId && msg.content == content && msg.isRead != Some(true)
    ensures InsertMessage(t, me, receiverId, content).(messages := t.messages, clock := t.clock) == t
  {
  }

  /** Sending keeps the store valid and, when it was consistent, consistent. */
  lemma SendMessageKeeps(t: Tables, caller: Option<Id>, receiverId: Id, content: string)
    requires t.Valid()
    ensures SendMessageStep(t, caller, receiverId, content).after.Valid()
    ensures t.Consistent() ==> SendMessageStep(t, caller, receiverId, content).after.Consistent()
  {
    if caller.Some? {
      InsertMessageEffect(t, caller.value, receiverId, content);
    }
  }

  /** The patch `markAsRead` performs. */
  function MarkRead(t: Tables, m: Id): Tables
    requires m in t.messages
  {
    t.(messages := t.messages[m := t.messages[m].(isRead := Some(true))])
  }

  /** `markAsRead`: what the handler does to the tables and what it returns. */
  function MarkAsReadStep(t: Tables, caller: Option<Id>, m: Id): Step<bool> {
    if caller.None? then Step(t, Err(NotAuthenticated))
    else if m !in t.messages then Step(t, Err(MessageNotFound))
    else if t.messages[m].receiverId != caller.value then Step(t, Err(NotAuthorized))
    else Step(MarkRead(t, m), Ok(true))
  }

  /** Marking throws, and writes nothing, without a signed-in caller, on a
      missing message, or when the caller is not the receiver; otherwise it returns true. */
  lemma MarkAsReadFails(t: Tables, caller: Option<Id>, m: Id)
    ensures MarkAsReadStep(t, caller, m).result.Err?
            <==> caller.None? || m !in t.messages || t.messages[m].receiverId != caller.value
    ensures caller.None? ==> MarkAsReadStep(t, caller, m).result == Err(NotAuthenticated)
    ensures caller.Some? && m !in t.messages ==> MarkAsReadStep(t, caller, m).result == Err(MessageNotFound)
    ensures caller.Some? && m in t.messages && t.messages[m].receiverId != caller.value
            ==> MarkAsReadStep(t, caller, m).result == Err(NotAuthorized)
    ensures MarkAsReadStep(t, caller, m).result.Err? ==> MarkAsReadStep(t, caller, m).after == t
    ensures MarkAsReadStep(t, caller, m).result.Ok? ==> MarkAsReadStep(t, caller, m).result == Ok(true)
  {
  }

  /** Marking sets the read flag of that message and changes nothing else:
      not its sender, receiver or content, and no other message or table. */
  lemma MarkReadEffect(t: Tables, m: Id)
    requires m in t.messages
    ensures MarkRead(t, m).messages.Keys == t.messages.Keys
    ensures MarkRead(t, m).messages[m].isRead == Some(true)
    ensures MarkRead(t, m).messages[m].(isRead := t.messages[m].isRead) == t.messages[m]
    ensures forall k :: k in t.messages && k != m ==> MarkRead(t, m).messages[k] == t.messages[k]
    ensures MarkRead(t, m).(messages := t.messages) == t
  {
  }

  /** Marking a message read a second time changes nothing. */
  lemma MarkAsReadTwice(t: Tables, caller: Option<Id>, m: Id)
    ensures var once := MarkAsReadStep(t, caller, m);
            MarkAsReadStep(once.after, caller, m) == once
  {
    if caller.Some? && m in t.messages && t.messages[m].receiverId == caller.value {
      var once := MarkRead(t, m);
      assert once.messages[m].receiverId == caller.value;
      assert MarkRead(once, m).messages == once.messages;
    }
  }

  /** Marking keeps the store valid and, when it was consistent, consistent. */
  lemma MarkAsReadKeeps(t: Tables, caller: Option<Id>, m: Id)
    requires t.Valid()
    ensures MarkAsReadStep(t, caller, m).after.Valid()
    ensures t.Consistent() ==> MarkAsReadStep(t, caller, m).after.Consistent()
  {
    if caller.Some? && m in t.messages && t.messages[m].receiverId == caller.value {
      MarkReadEffect(t, m);
    }
  }

  /** A message as `getMessages` returns it: with whether the caller sent it. */
  datatype MessageView = MessageView(message: Doc<Message>, isFromCurrentUser: bool)

  /** The message went from `a` to `b` or from `b` to `a`. */
  predicate Between(d: Doc<Message>, a: Id, b: Id) {
    (d.val.senderId == a && d.val.receiverId == b) || (d.val.senderId == b && d.val.receiverId == a)
  }

  /** The messages between `me` and `other`, oldest first. */
  function Thread(t: Tables, me: Id, other: Id): (r: seq<Doc<Message>>)
    ensures Ascending(r)
    ensures forall d :: d in r <==> d.id in t.messages && d.id < t.clock && d.val == t.messages[d.id] && Between(d, me, other)
  {
    var keep := (d: Doc<Message>) => Between(d, me, other);
    WhereAscending(Scan(t.messages, t.clock), keep);
    Where(Scan(t.messages, t.clock), keep)
  }

  /** The messages `rows`, each marked with whether `me` sent it. */
  function FromMe(rows: seq<Doc<Message>>, me: Id): (r: seq<MessageView>)
    ensures |r| == |rows|
    ensures forall i :: 0 <= i < |r| ==> r[i].message == rows[i] && r[i].isFromCurrentUser == (rows[i].val.senderId == me)
  {
    if rows == [] then [] else [MessageView(rows[0], rows[0].val.senderId == me)] + FromMe(rows[1..], me)
  }

  /** `getMessages`: the conversation between the caller and `other`, oldest
      first; nothing when no one is signed in. */
  function GetMessages(t: Tables, caller: Option<Id>, other: Id): (r: seq<MessageView>)
    ensures caller.None? ==> r == []
  {
    if caller.None? then [] else FromMe(Thread(t, caller.value, other), caller.value)
  }

  /** `getMessages` lists every message between the two users once, oldest
      first, and flags exactly those the caller sent. */
  lemma MessagesListed(t: Tables, me: Id, other: Id)
    ensures var r := GetMessages(t, Some(me), other);
      forall i :: 0 <= i < |r| ==>
        && r[i].message.id in t.messages && r[i].message.val == t.messages[r[i].message.id]
        && Between(r[i].message, me, other)
        && (r[i].isFromCurrentUser <==> r[i].message.val.senderId == me)
    ensures var r := GetMessages(t, Some(me), other);
      forall i, j :: 0 <= i < j < |r| ==> r[i].message.id < r[j].message.id
  {
    var rows := Thread(t, me, other);
    assert forall i :: 0 <= i < |rows| ==> rows[i] in rows;
  }

  /** Every message between the two users is in `getMessages`. */
  lemma MessagesComplete(t: Tables, me: Id, other: Id, m: Id)
    requires t.Valid() && m in t.messages && Between(Doc(m, t.messages[m]), me, other)
    ensures exists i :: 0 <= i < |GetMessages(t, Some(me), other)| && GetMessages(t, Some(me), other)[i].message == Doc(m, t.messages[m])
  {
    var rows := Thread(t, me, other);
    assert Doc(m, t.messages[m]) in rows;
    var i :| 0 <= i < |rows| && rows[i] == Doc(m, t.messages[m]);
    assert GetMessages(t, Some(me), other)[i].message == rows[i];
  }

  /** The other side of a message `me` sent or received. */
  function Partner(me: Id, m: Message): Id {
    if m.senderId == me then m.receiverId else m.senderId
  }

  /** The messages `me` sent or received, newest first. */
  function Involving(t: Tables, me: Id): (r: seq<Doc<Message>>)
    ensures Descending(r)
    ensures forall d :: d in r <==>
              d.id in t.messages && d.id < t.clock && d.val == t.messages[d.id] && (d.val.senderId == me || d.val.receiverId == me)
  {
    var all := Reverse(Scan(t.messages, t.clock));
    var keep := (d: Doc<Message>) => d.val.senderId == me || d.val.receiverId == me;
    ReverseOfAscending(Scan(t.messages, t.clock));
    ReverseMembers(Scan(t.messages, t.clock));
    WhereDescending(all, keep);
    Where(all, keep)
  }

  /** One entry of `getConversations`: the partner's profile and the newest message with them. */
  datatype Conversation = Conversation(otherUser: Doc<User>, lastMessage: string, lastMessageTime: Id)

  /** `conversationMap.has(other)`. */
  predicate Has(convs: seq<Conversation>, other: Id) {
    exists k :: 0 <= k < |convs| && convs[k].otherUser.id == other
  }

  /** Entry `c` was made from one of `messages`: one exchanged with its partner, whose text and time it shows. */
  ghost predicate FromMessage(me: Id, messages: seq<Doc<Message>>, c: Conversation) {
    exists j :: 0 <= j < |messages| && Partner(me, messages[j].val) == c.otherUser.id
                && messages[j].id == c.lastMessageTime && messages[j].val.content == c.lastMessage
  }

  /** What `getConversations` promises of its result `r` for `me`, given
      the messages `me` sent or received, newest first: each entry is a
      partner whose profile exists, listed once, with the newest message
      exchanged with them; every partner whose profile exists has an entry;
      and entries come newest conversation first. */
  ghost predicate Grouped(me: Id, users: map<Id, User>, messages: seq<Doc<Message>>, r: seq<Conversation>) {
    && (forall k :: 0 <= k < |r| ==> r[k].otherUser.id in users && r[k].otherUser.val == users[r[k].otherUser.id])
    && (forall k, l :: 0 <= k < l < |r| ==> r[k].otherUser.id != r[l].otherUser.id)
    && (forall k, l :: 0 <= k < l < |r| ==> r[k].lastMessageTime > r[l].lastMessageTime)
    && (forall k :: 0 <= k < |r| ==> FromMessage(me, messages, r[k]))
    && (forall k, j :: 0 <= k < |r| && 0 <= j < |messages| && Partner(me, messages[j].val) == r[k].otherUser.id
          ==> messages[j].id <= r[k].lastMessageTime)
    && (forall j :: 0 <= j < |messages| && Partner(me, messages[j].val) in users ==> Has(r, Partner(me, messages[j].val)))
  }

  /** Appending an entry adds its partner and keeps the others. */
  lemma HasAppend(r: seq<Conversation>, c: Conversation, x: Id)
    ensures Has(r + [c], x) <==> Has(r, x) || c.otherUser.id == x
  {
    if Has(r, x) {
      var k :| 0 <= k < |r| && r[k].otherUser.id == x;
      assert (r + [c])[k].otherUser.id == x;
    }
    if c.otherUser.id == x {
      assert (r + [c])[|r|].otherUser.id == x;
    }
  }

  /** The state of the grouping loop after the first `i` messages: `from[k]`
      is the index of the message that started entry `k`. */
  ghost predicate Scanned(me: Id, users: map<Id, User>, messages: seq<Doc<Message>>, i: nat, r: seq<Conversation>, from: seq<nat>) {
    && i <= |messages|
    && |from| == |r|
    && (forall k :: 0 <= k < |r| ==> from[k] < i)
    && (forall k, l :: 0 <= k < l < |r| ==> from[k] < from[l])
    && (forall k :: 0 <= k < |r| ==>
          && r[k].otherUser.id == Partner(me, messages[from[k]].val)
          && r[k].lastMessageTime == messages[from[k]].id
          && r[k].lastMessage == messages[from[k]].val.content)
    && (forall k :: 0 <= k < |r| ==> r[k].otherUser.id in users && r[k].otherUser.val == users[r[k].otherUser.id])
    && (forall k, l :: 0 <= k < l < |r| ==> r[k].otherUser.id != r[l].otherUser.id)
    && (forall j :: 0 <= j < i && Partner(me, messages[j].val) in users ==> Has(r, Partner(me, messages[j].val)))
    && (forall k, j :: 0 <= k < |r| && 0 <= j < i && Partner(me, messages[j].val) == r[k].otherUser.id ==> from[k] <= j)
  }

  /** A message with a partner who already has an entry, or whose profile is gone, changes nothing. */
  lemma ScanSkip(me: Id, users: map<Id, User>, messages: seq<Doc<Message>>, i: nat, r: seq<Conversation>, from: seq<nat>)
    requires Scanned(me, users, messages, i, r, from) && i < |messages|
    requires Has(r, Partner(me, messages[i].val)) || Partner(me, messages[i].val) !in users
    ensures Scanned(me, users, messages, i + 1, r, from)
  {
  }

  /** The first message with a partner whose profile exists starts that partner's entry. */
  lemma ScanAdd(me: Id, users: map<Id, User>, messages: seq<Doc<Message>>, i: nat, r: seq<Conversation>, from: seq<nat>)
    requires Scanned(me, users, messages, i, r, from) && i < |messages|
    requires !Has(r, Partner(me, messages[i].val)) && Partner(me, messages[i].val) in users
    ensures var p := Partner(me, messages[i].val);
            Scanned(me, users, messages, i + 1, r + [Conversation(Doc(p, users[p]), messages[i].val.content, messages[i].id)], from + [i])
  {
    var p := Partner(me, messages[i].val);
    var c := Conversation(Doc(p, users[p]), messages[i].val.content, messages[i].id);
    forall x ensures Has(r + [c], x) <==> Has(r, x) || x == p {
      HasAppend(r, c, x);
    }
  }

  /** Once every message is scanned, the entries are what `getConversations` promises. */
  lemma ScanDone(me: Id, users: map<Id, User>, messages: seq<Doc<Message>>, r: seq<Conversation>, from: seq<nat>)
    requires Descending(messages) && Scanned(me, users, messages, |messages|, r, from)
    ensures Grouped(me, users, messages, r)
  {
    forall k | 0 <= k < |r| ensures FromMessage(me, messages, r[k]) {
      var j := from[k];
      assert Partner(me, messages[j].val) == r[k].otherUser.id;
    }
  }

  /** The grouping loop of `getConversations`: walking `messages` newest
      first, the first message with each partner whose profile exists
      starts that partner's entry. */
  method Group(me: Id, users: map<Id, User>, messages: seq<Doc<Message>>) returns (r: seq<Conversation>)
    requires Descending(messages)
    ensures Grouped(me, users, messages, r)
  {
    r := [];
    ghost var from: seq<nat> := [];
    var i := 0;
    while i < |messages|
      invariant Scanned(me, users, messages, i, r, from)
    {
      var message := messages[i];
      var otherUserId := Partner(me, message.val);
      if !Has(r, otherUserId) {
        var otherUser := Get(users, otherUserId);
        if otherUser.Some? {
          ScanAdd(me, users, messages, i, r, from);
          r := r + [Conversation(otherUser.value, message.val.content, message.id)];
          from := from + [i];
        } else {
          ScanSkip(me, users, messages, i, r, from);
        }
      } else {
        ScanSkip(me, users, messages, i, r, from);
      }
      i := i + 1;
    }
    ScanDone(me, users, messages, r, from);
  }

  /** `getConversations`: the caller's conversations, one per partner whose
      profile exists, each with the newest message exchanged, newest
      conversation first; nothing when no one is signed in. The final sort
      by time is not performed: the grouped entries already come in that order. */
  method GetConversations(t: Tables, caller: Option<Id>) returns (r: seq<Conversation>)
    ensures caller.None? ==> r == []
    ensures caller.Some? ==> Grouped(caller.value, t.users, Involving(t, caller.value), r)
  {
    if caller.None? {
      return [];
    }
    r := Group(caller.value, t.users, Involving(t, caller.value));
  }

  /** `sendMessage` against the store object. */
  method SendMessage(db: Store, caller: Option<Id>, receiverId: Id, content: string) returns (r: Result<Id>)
    requires db.Valid()
    modifies db
    ensures Step(db.State(), r) == SendMessageStep(old(db.State()), caller, receiverId, content)
    ensures db.Valid() && (old(db.Consistent()) ==> db.Consistent())
  {
    SendMessageKeeps(db.State(), caller, receiverId, content);
    if caller.None? {
      return Err(NotAuthenticated);
    }
    var messageId := db.NewId();
    db.messages := db.messages[messageId := Message(caller.value, receiverId, content, Some(false))];
    return Ok(messageId);
  }

  /** `markAsRead` against the store object. */
  method MarkAsRead(db: Store, caller: Option<Id>, messageId: Id) returns (r: Result<bool>)
    requires db.Valid()
    modifies db
    ensures Step(db.State(), r) == MarkAsReadStep(old(db.State()), caller, messageId)
    ensures db.Valid() && (old(db.Consistent()) ==> db.Consistent())
  {
    MarkAsReadKeeps(db.State(), caller, messageId);
    if caller.None? {
      return Err(NotAuthenticated);
    }
    var message := Get(db.messages, messageId);
    if message.None? {
      return Err(MessageNotFound);
    }
    if message.value.val.receiverId != caller.value {
      return Err(NotAuthorized);
    }
    db.messages := db.messages[messageId := message.value.val.(isRead := Some(true))];
    return Ok(true);
  }
}
