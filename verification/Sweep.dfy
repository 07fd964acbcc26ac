/**
 The expiry sweep: each call visits a bounded number of keys behind a cursor, and the
 cursor wraps when fewer are left. Keys may come and go between calls.
 */
module Sweep {
  import opened Wrappers
  import opened Words
  import opened Bytes
  import opened Store

  predicate Behind(cursor: Option<Key>, k: Key) {
    cursor.None? || Below(cursor.value, k)
  }

  function KeysBehind(keys: set<Key>, cursor: Option<Key>): set<Key> {
    set k | k in keys && Behind(cursor, k)
  }

  // One call saw these keys and left this cursor.
  ghost predicate Swept(keys: set<Key>, cursor: Option<Key>, limit: nat, visited: seq<Key>, next: Option<Key>) {
    && Ascending(visited)
    && (forall k :: k in visited ==> k in KeysBehind(keys, cursor))
    && (forall k :: k in KeysBehind(keys, cursor) && k !in visited ==>
          |visited| == limit && forall v :: v in visited ==> Below(v, k))
    && |visited| <= limit
    && next == (if |visited| == limit && limit > 0 then Some(visited[limit - 1]) else None)
  }

  // Visits at most limit keys behind the cursor, in order.
  method SweepKs(keys: set<Key>, cursor: Option<Key>, limit: nat) returns (visited: seq<Key>, next: Option<Key>)
    ensures Swept(keys, cursor, limit, visited, next)
  {
    var items := Scan(KeysBehind(keys, cursor));
    visited, next := [], None;
    var count := 0;
    while count < |items| && count < limit
      invariant 0 <= count <= |items| && count <= limit && visited == items[..count]
      invariant next == (if count == limit && limit > 0 then Some(items[limit - 1]) else None)
    {
      visited := visited + [items[count]];
      count := count + 1;
      if count == limit {
        next := Some(items[count - 1]);
      }
    }
    RestAbove(items, count, KeysBehind(keys, cursor));
  }

  lemma RestAbove(items: seq<Key>, n: nat, keys: set<Key>)
    requires IsScan(items, keys) && n <= |items|
    ensures Ascending(items[..n]) && forall k :: k in items[..n] ==> k in keys
    ensures forall k :: k in keys && k !in items[..n] ==> n < |items| && forall v :: v in items[..n] ==> Below(v, k)
  {
    forall k | k in items[..n] ensures k in keys {
      assert k in items;
    }
    forall k | k in keys && k !in items[..n]
      ensures n < |items| && forall v :: v in items[..n] ==> Below(v, k)
    {
      assert items == items[..n] + items[n..];
      assert k in items[n..];
      var j :| 0 <= j < |items| - n && items[n..][j] == k;
      assert items[n + j] == k;
      forall v | v in items[..n] ensures Below(v, k) {
        var i :| 0 <= i < n && items[..n][i] == v;
        assert items[i] == v;
      }
    }
  }

  // ---------- a whole cycle ----------

  // What call i of a cycle saw: the keys there were, its own limit, and what it visited.
  datatype Call = Call(keys: set<Key>, limit: nat, visited: seq<Key>, next: Option<Key>)

  // Calls one after the other, each from the cursor the one before it left, the first
  // from the start; every call may have another positive limit.
  ghost predicate Chain(calls: seq<Call>) {
    forall i :: 0 <= i < |calls| ==>
      calls[i].limit > 0
        && Swept(calls[i].keys, CursorBefore(calls, i), calls[i].limit, calls[i].visited, calls[i].next)
  }

  function CursorBefore(calls: seq<Call>, i: nat): Option<Key>
    requires i <= |calls|
  {
    if i == 0 then None else calls[i - 1].next
  }

  // no call but the last wrapped
  predicate OneCycle(calls: seq<Call>) {
    forall i :: 0 <= i < |calls| - 1 ==> calls[i].next.Some?
  }

  function Visited(calls: seq<Call>, n: nat): seq<Key>
    requires n <= |calls|
  {
    if n == 0 then [] else Visited(calls, n - 1) + calls[n - 1].visited
  }

  // Not behind the cursor: visited if it was there all along.
  ghost predicate Covered(visited: seq<Key>, cursor: Option<Key>, k: Key) {
    k in visited || (cursor.Some? && Below(cursor.value, k))
  }

  ghost predicate UpTo(visited: seq<Key>, cursor: Option<Key>) {
    forall v :: v in visited ==> cursor.Some? && AtMost(v, cursor.value)
  }

  lemma VisitedUpToCursor(keys: set<Key>, cursor: Option<Key>, limit: nat, visited: seq<Key>, next: Option<Key>)
    requires Swept(keys, cursor, limit, visited, next) && next.Some?
    ensures UpTo(visited, next)
    ensures cursor.Some? ==> Below(cursor.value, next.value)
  {
    var last := |visited| - 1;
    assert visited[last] in visited;
    forall v | v in visited ensures AtMost(v, next.value) {
      var i :| 0 <= i < |visited| && visited[i] == v;
    }
  }

  // One more call of a cycle keeps the visited keys in order.
  lemma Extend(before: seq<Key>, cursor: Option<Key>, keys: set<Key>, limit: nat, visited: seq<Key>, next: Option<Key>)
    requires Ascending(before) && UpTo(before, cursor) && Swept(keys, cursor, limit, visited, next)
    ensures Ascending(before + visited)
    ensures next.Some? ==> UpTo(before + visited, next)
  {
    var all := before + visited;
    forall i, j | 0 <= i < j < |all| ensures Below(all[i], all[j]) {
      if i < |before| && j >= |before| {
        assert before[i] in before && visited[j - |before|] in visited;
        BelowOrEqualThenBelow(before[i], cursor.value, all[j]);
      } else if i >= |before| {
        assert all[i] == visited[i - |before|] && all[j] == visited[j - |before|];
      }
    }
    if next.Some? {
      VisitedUpToCursor(keys, cursor, limit, visited, next);
      forall v | v in all ensures AtMost(v, next.value) {
        if v in before {
          BelowOrEqualThenBelow(v, cursor.value, next.value);
        }
      }
    }
  }

  lemma BelowOrEqualThenBelow(a: Key, b: Key, c: Key)
    requires AtMost(a, b) && Below(b, c)
    ensures Below(a, c)
  {
    if a != b {
      BelowTransitive(a, b, c);
    }
  }

  // What was visited so far is in order and up to the cursor.
  ghost predicate InOrder(visited: seq<Key>, cursor: Option<Key>) {
    Ascending(visited) && UpTo(visited, cursor)
  }

  lemma OneMoreCall(before: seq<Key>, cursor: Option<Key>, c: Call)
    requires InOrder(before, cursor) && Swept(c.keys, cursor, c.limit, c.visited, c.next)
    ensures Ascending(before + c.visited)
    ensures c.next.Some? ==> InOrder(before + c.visited, c.next)
  {
    Extend(before, cursor, c.keys, c.limit, c.visited, c.next);
  }

  lemma NextInOrder(calls: seq<Call>, n: nat)
    requires Chain(calls) && OneCycle(calls) && n < |calls| && InOrder(Visited(calls, n), CursorBefore(calls, n))
    ensures Ascending(Visited(calls, n + 1))
    ensures n + 1 < |calls| ==> InOrder(Visited(calls, n + 1), CursorBefore(calls, n + 1))
  {
    OneMoreCall(Visited(calls, n), CursorBefore(calls, n), calls[n]);
  }

  lemma CycleInOrder(calls: seq<Call>, n: nat)
    requires Chain(calls) && OneCycle(calls) && n < |calls|
    ensures InOrder(Visited(calls, n), CursorBefore(calls, n))
  {
    var i := 0;
    while i < n
      invariant i <= n && InOrder(Visited(calls, i), CursorBefore(calls, i))
    {
      NextInOrder(calls, i);
      i := i + 1;
    }
  }

  lemma CycleAscending(calls: seq<Call>)
    requires Chain(calls) && OneCycle(calls)
    ensures Ascending(Visited(calls, |calls|))
  {
    if calls != [] {
      var n := |calls| - 1;
      CycleInOrder(calls, n);
      NextInOrder(calls, n);
    }
  }

  // A call leaves behind its cursor what it did not visit.
  lemma VisitedOrAhead(c: Call, cursor: Option<Key>, k: Key)
    requires c.limit > 0 && Swept(c.keys, cursor, c.limit, c.visited, c.next) && k in c.keys && Behind(cursor, k)
    ensures Covered(c.visited, c.next, k)
  {
    if k !in c.visited {
      assert k in KeysBehind(c.keys, cursor);
      assert c.visited[c.limit - 1] in c.visited;
    }
  }

  // A key present throughout is visited or still ahead.
  lemma {:induction false} StillAhead(calls: seq<Call>, n: nat, k: Key)
    requires Chain(calls) && OneCycle(calls) && 0 < n <= |calls|
    requires forall i :: 0 <= i < n ==> k in calls[i].keys
    ensures Covered(Visited(calls, n), calls[n - 1].next, k)
  {
    var cursor := CursorBefore(calls, n - 1);
    if n > 1 {
      StillAhead(calls, n - 1, k);
    }
    if k !in Visited(calls, n - 1) {
      VisitedOrAhead(calls[n - 1], cursor, k);
    }
  }

  predicate Once(items: seq<Key>, k: Key) {
    multiset(items)[k] == 1
  }

  lemma {:induction false} AscendingOnce(items: seq<Key>, k: Key)
    requires Ascending(items) && k in items
    ensures Once(items, k)
  {
    var i :| 0 <= i < |items| && items[i] == k;
    var a, b := items[..i], items[i + 1..];
    assert items == a + [k] + b;
    BelowIrreflexive(k);
    forall j | 0 <= j < |a| ensures a[j] != k {
      assert Below(items[j], items[i]);
    }
    forall j | 0 <= j < |b| ensures b[j] != k {
      assert Below(items[i], items[i + 1 + j]);
    }
    assert k !in a && k !in b;
  }

  // From one wrap of the cursor to the next, whatever is inserted and deleted between
  // the calls and whatever limit each of them has: keys are visited in strictly increasing order, and every key present at
  // all calls exactly once.
  lemma CycleCovers(calls: seq<Call>, k: Key)
    requires Chain(calls) && OneCycle(calls)
    requires calls != [] && calls[|calls| - 1].next.None?
    ensures Ascending(Visited(calls, |calls|))
    ensures (forall i :: 0 <= i < |calls| ==> k in calls[i].keys) ==> Once(Visited(calls, |calls|), k)
  {
    CycleAscending(calls);
    if forall i :: 0 <= i < |calls| ==> k in calls[i].keys {
      VisitedOnce(calls, k);
    }
  }

  lemma VisitedOnce(calls: seq<Call>, k: Key)
    requires Chain(calls) && OneCycle(calls) && calls != [] && calls[|calls| - 1].next.None?
    requires Ascending(Visited(calls, |calls|)) && forall i :: 0 <= i < |calls| ==> k in calls[i].keys
    ensures Once(Visited(calls, |calls|), k)
  {
    StillAhead(calls, |calls|, k);
    AscendingOnce(Visited(calls, |calls|), k);
  }
}
