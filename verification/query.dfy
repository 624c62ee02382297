/**
 * The query pipeline the handlers build on the document store:
 * `.query(table)` scans a table in creation order, `.order("desc")` reverses
 * it, `.filter(...)` keeps some documents, `.take(n)` keeps the first n.
 * Since ids are issued in creation order, creation order is id order.
 */
module Query {
  import opened Schema

  /** A document: its id and its record. */
  datatype Doc<R> = Doc(id: Id, val: R)

  ghost predicate Ascending<R>(s: seq<Doc<R>>) {
    forall i, j :: 0 <= i < j < |s| ==> s[i].id < s[j].id
  }

  ghost predicate Descending<R>(s: seq<Doc<R>>) {
    forall i, j :: 0 <= i < j < |s| ==> s[i].id > s[j].id
  }

  /** The documents of `rows` whose id is below `n`, oldest first. */
  function Scan<R(==)>(rows: map<Id, R>, n: nat): (r: seq<Doc<R>>)
    ensures Ascending(r)
    ensures forall i :: 0 <= i < |r| ==> r[i].id < n && r[i].id in rows && r[i].val == rows[r[i].id]
    ensures forall id :: id in rows && id < n ==> Doc(id, rows[id]) in r
  {
    if n == 0 then []
    else
      var prefix := Scan(rows, n - 1);
      if n - 1 in rows then prefix + [Doc(n - 1, rows[n - 1])] else prefix
  }

  /** `.filter(keep)`: the documents of `s` that satisfy `keep`, in the same order. */
  function Where<R(==,!new)>(s: seq<Doc<R>>, keep: Doc<R> -> bool): (r: seq<Doc<R>>)
    ensures |r| <= |s|
    ensures forall d :: d in r <==> d in s && keep(d)
  {
    if s == [] then []
    else if keep(s[0]) then [s[0]] + Where(s[1..], keep)
    else Where(s[1..], keep)
  }

  /** Filtering keeps documents in their order: oldest first stays oldest first. */
  lemma {:induction false} WhereAscending<R(!new)>(s: seq<Doc<R>>, keep: Doc<R> -> bool)
    requires Ascending(s)
    ensures Ascending(Where(s, keep))
  {
    if s != [] {
      WhereAscending(s[1..], keep);
      var rest := Where(s[1..], keep);
      forall j | 0 <= j < |rest| ensures s[0].id < rest[j].id {
        assert rest[j] in s[1..];
      }
    }
  }

  /** Filtering keeps documents in their order: newest first stays newest first. */
  lemma {:induction false} WhereDescending<R(!new)>(s: seq<Doc<R>>, keep: Doc<R> -> bool)
    requires Descending(s)
    ensures Descending(Where(s, keep))
  {
    if s != [] {
      WhereDescending(s[1..], keep);
      var rest := Where(s[1..], keep);
      forall j | 0 <= j < |rest| ensures s[0].id > rest[j].id {
        assert rest[j] in s[1..];
      }
    }
  }

  /** `.query(table).filter(keep)`: the documents of `rows` below `n` that satisfy `keep`, oldest first. */
  function Select<R(==,!new)>(rows: map<Id, R>, n: nat, keep: Doc<R> -> bool): (r: seq<Doc<R>>)
    ensures Ascending(r)
    ensures forall d :: d in r <==> d.id in rows && d.id < n && d.val == rows[d.id] && keep(d)
  {
    WhereAscending(Scan(rows, n), keep);
    Where(Scan(rows, n), keep)
  }

  /** `.order("desc")` on a scan: the same documents, newest first. */
  function Reverse<T>(s: seq<T>): (r: seq<T>)
    ensures |r| == |s|
    ensures forall i :: 0 <= i < |s| ==> r[i] == s[|s| - 1 - i]
  {
    if s == [] then [] else Reverse(s[1..]) + [s[0]]
  }

  lemma ReverseOfAscending<R>(s: seq<Doc<R>>)
    requires Ascending(s)
    ensures Descending(Reverse(s))
  {
  }

  lemma ReverseMembers<T>(s: seq<T>)
    ensures forall x :: x in Reverse(s) <==> x in s
  {
    var r := Reverse(s);
    forall x | x in s ensures x in r {
      var i :| 0 <= i < |s| && s[i] == x;
      assert r[|s| - 1 - i] == x;
    }
  }

  /** `.take(n)` / `.slice(0, n)`: the first `n` elements, or all of them when there are fewer. */
  function Take<T>(s: seq<T>, n: nat): (r: seq<T>)
    ensures |r| == if |s| < n then |s| else n
    ensures r == s[..|r|]
  {
    if |s| <= n then s else s[..n]
  }

  /** What `.take(n)` keeps was there before. */
  lemma TakeMembers<T>(s: seq<T>, n: nat)
    ensures forall x :: x in Take(s, n) ==> x in s
  {
    forall x | x in Take(s, n) ensures x in s {
      var i :| 0 <= i < |Take(s, n)| && Take(s, n)[i] == x;
      assert s[i] == x;
    }
  }

  /** An element of a newest-first sequence that `.take(n)` drops is older
      than everything taken, and the take is full. */
  lemma TakeNewest<R>(s: seq<Doc<R>>, n: nat, x: Doc<R>)
    requires Descending(s) && x in s && x !in Take(s, n)
    ensures |Take(s, n)| == n
    ensures forall i :: 0 <= i < n ==> Take(s, n)[i].id > x.id
  {
    var k :| 0 <= k < |s| && s[k] == x;
  }

  /** The ids of the rows whose `key` is `k` (the rows an index lookup `eq(key, k)` finds). */
  ghost function Having<R>(rows: map<Id, R>, key: R -> Id, k: Id): set<Id> {
    set id | id in rows && key(rows[id]) == k
  }

  lemma HavingInsert<R>(rows: map<Id, R>, key: R -> Id, k: Id, id: Id, v: R)
    requires id !in rows
    ensures Having(rows[id := v], key, k) == if key(v) == k then Having(rows, key, k) + {id} else Having(rows, key, k)
    ensures |Having(rows[id := v], key, k)| == |Having(rows, key, k)| + (if key(v) == k then 1 else 0)
  {
  }

  lemma HavingRemove<R>(rows: map<Id, R>, key: R -> Id, k: Id, id: Id)
    ensures Having(rows - {id}, key, k) == Having(rows, key, k) - {id}
    ensures |Having(rows - {id}, key, k)| == |Having(rows, key, k)| - (if id in rows && key(rows[id]) == k then 1 else 0)
  {
  }

  /** Changing a record without changing its key leaves every index lookup on that key as it was. */
  lemma HavingPatch<R>(rows: map<Id, R>, key: R -> Id, k: Id, id: Id, v: R)
    requires id in rows && key(v) == key(rows[id])
    ensures Having(rows[id := v], key, k) == Having(rows, key, k)
  {
  }

  /** The ids of the documents of `s`. */
  ghost function IdsOf<R>(s: seq<Doc<R>>): set<Id> {
    set i | 0 <= i < |s| :: s[i].id
  }

  /** The ids of a prefix grow by one element at a time. */
  lemma IdsOfSnoc<R>(s: seq<Doc<R>>, i: nat)
    requires i < |s|
    ensures IdsOf(s[..i + 1]) == IdsOf(s[..i]) + {s[i].id}
  {
    assert s[..i + 1][i] == s[i];
    forall x | x in IdsOf(s[..i]) ensures x in IdsOf(s[..i + 1]) {
      var j :| 0 <= j < i && s[..i][j].id == x;
      assert s[..i + 1][j].id == x;
    }
  }

  /** The ids of a non-empty sequence: its first id and the ids of the rest. */
  lemma IdsOfCons<R>(s: seq<Doc<R>>)
    requires s != []
    ensures IdsOf(s) == IdsOf(s[1..]) + {s[0].id}
  {
    var t := s[1..];
    forall x | x in IdsOf(s) ensures x in IdsOf(t) + {s[0].id} {
      var i :| 0 <= i < |s| && s[i].id == x;
      if i > 0 { assert t[i - 1].id == x; }
    }
    forall x | x in IdsOf(t) ensures x in IdsOf(s) {
      var i :| 0 <= i < |t| && t[i].id == x;
      assert s[i + 1].id == x;
    }
  }

  /** A sequence with strictly increasing ids lists each of its ids exactly once. */
  lemma {:induction false} AscendingCount<R>(s: seq<Doc<R>>)
    requires Ascending(s)
    ensures |IdsOf(s)| == |s|
  {
    if s != [] {
      var t := s[1..];
      AscendingCount(t);
      IdsOfCons(s);
    }
  }

  /** `.withIndex(index, q => q.eq(key, k)).collect()`: the rows whose `key` is `k`, oldest first. */
  function Lookup<R(==,!new)>(rows: map<Id, R>, clock: nat, key: R -> Id, k: Id): (r: seq<Doc<R>>)
    ensures Ascending(r)
    ensures forall d :: d in r <==> d.id in rows && d.id < clock && d.val == rows[d.id] && key(d.val) == k
  {
    WhereAscending(Scan(rows, clock), (d: Doc<R>) => key(d.val) == k);
    Where(Scan(rows, clock), (d: Doc<R>) => key(d.val) == k)
  }

  /** An index lookup lists each row with that key exactly once. */
  lemma LookupCount<R(!new)>(rows: map<Id, R>, clock: nat, key: R -> Id, k: Id)
    requires forall id :: id in rows ==> id < clock
    ensures IdsOf(Lookup(rows, clock, key, k)) == Having(rows, key, k)
    ensures |Lookup(rows, clock, key, k)| == |Having(rows, key, k)|
  {
    var s := Lookup(rows, clock, key, k);
    forall id | id in Having(rows, key, k) ensures id in IdsOf(s) {
      assert Doc(id, rows[id]) in s;
    }
    AscendingCount(s);
  }

  /** The rows whose `key` is not `k`: what is left once every row with that key is deleted. */
  function Except<R>(rows: map<Id, R>, key: R -> Id, k: Id): (r: map<Id, R>)
    ensures r == rows - Having(rows, key, k)
    ensures Having(r, key, k) == {}
    ensures forall k' :: k' != k ==> Having(r, key, k') == Having(rows, key, k')
  {
    map id | id in rows && key(rows[id]) != k :: rows[id]
  }
}
