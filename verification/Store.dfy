/**
 The store: two partitions, each a sorted map from keys to values, ordered scans, and
 the removal of whole databases and namespaces in one batch.
 */
module Store {
  import opened Wrappers
  import opened Words
  import opened Bytes
  import opened Varint
  import opened Keys

  type Partition = map<Key, Key>

  datatype State = State(data: Partition, meta: Partition)

  // ---------- scans ----------

  predicate Ascending(items: seq<Key>) {
    forall i, j :: 0 <= i < j < |items| ==> Below(items[i], items[j])
  }

  // what a scan of a partition's keys yields
  ghost predicate IsScan(items: seq<Key>, keys: set<Key>) {
    Ascending(items) && forall k :: k in items <==> k in keys
  }

  // There is only one such sequence.
  lemma {:induction false} ScanUnique(a: seq<Key>, b: seq<Key>, keys: set<Key>)
    requires IsScan(a, keys) && IsScan(b, keys)
    ensures a == b
    decreases |a|
  {
    ScanCounts(a, keys);
    ScanCounts(b, keys);
    if |a| > 0 {
      SameFirst(a, b, keys);
      TailScan(a, keys);
      TailScan(b, keys);
      ScanUnique(a[1..], b[1..], keys - {a[0]});
      assert a == [a[0]] + a[1..] && b == [b[0]] + b[1..];
    }
  }

  lemma SameFirst(a: seq<Key>, b: seq<Key>, keys: set<Key>)
    requires IsScan(a, keys) && IsScan(b, keys) && a != [] && b != []
    ensures a[0] == b[0]
  {
    assert a[0] in b && b[0] in a;
    BelowTotal(a[0], b[0]);
  }

  lemma TailScan(a: seq<Key>, keys: set<Key>)
    requires IsScan(a, keys) && a != []
    ensures IsScan(a[1..], keys - {a[0]})
  {
    BelowIrreflexive(a[0]);
    assert a == [a[0]] + a[1..];
    forall k ensures k in a[1..] <==> k in keys - {a[0]} {
      if k in a[1..] {
        var i :| 0 <= i < |a| - 1 && a[1..][i] == k;
        assert Below(a[0], a[i + 1]);
      }
    }
  }

  function Insert(items: seq<Key>, k: Key): seq<Key> {
    if items == [] then [k]
    else if Below(items[0], k) then [items[0]] + Insert(items[1..], k)
    else [k] + items
  }

  lemma {:induction false} InsertScans(items: seq<Key>, k: Key, keys: set<Key>)
    requires IsScan(items, keys) && k !in keys
    ensures IsScan(Insert(items, k), keys + {k})
    decreases |items|
  {
    if items == [] {
    } else if Below(items[0], k) {
      TailScan(items, keys);
      InsertScans(items[1..], k, keys - {items[0]});
      PrependScans(items[0], Insert(items[1..], k), keys - {items[0]} + {k});
      assert items[0] in keys;
      assert {items[0]} + (keys - {items[0]} + {k}) == keys + {k};
    } else {
      BelowTotal(items[0], k);
      assert items[0] in keys;
      forall j | j in keys ensures Below(k, j) {
        var i :| 0 <= i < |items| && items[i] == j;
        if i > 0 {
          BelowTransitive(k, items[0], j);
        }
      }
      PrependScans(k, items, keys);
      assert {k} + keys == keys + {k};
    }
  }

  lemma PrependScans(k: Key, items: seq<Key>, keys: set<Key>)
    requires IsScan(items, keys) && forall j :: j in keys ==> Below(k, j)
    ensures IsScan([k] + items, {k} + keys)
  {
    var all := [k] + items;
    forall i, j | 0 <= i < j < |all| ensures Below(all[i], all[j]) {
      if i == 0 {
        assert all[j] in items;
      } else {
        assert all[i] == items[i - 1] && all[j] == items[j - 1];
      }
    }
  }

  // The engine's ordered scan.
  method Scan(keys: set<Key>) returns (items: seq<Key>)
    ensures IsScan(items, keys)
  {
    items := [];
    var rest := keys;
    while rest != {}
      invariant rest <= keys && IsScan(items, keys - rest)
      decreases |rest|
    {
      var k :| k in rest;
      InsertScans(items, k, keys - rest);
      assert keys - (rest - {k}) == keys - rest + {k};
      items, rest := Insert(items, k), rest - {k};
    }
    assert keys - rest == keys;
  }

  // ---------- keys under a prefix ----------

  function Under(p: Key, m: Partition): set<Key> {
    set k | k in m && p <= k
  }

  function Without(m: Partition, p: Key): Partition {
    m - Under(p, m)
  }

  lemma {:induction false} ScanCounts(items: seq<Key>, keys: set<Key>)
    requires IsScan(items, keys)
    ensures |items| == |keys|
    decreases |items|
  {
    if items == [] {
      assert keys == {};
    } else {
      TailScan(items, keys);
      ScanCounts(items[1..], keys - {items[0]});
      assert items[0] in keys;
    }
  }

  // Queues every key under the prefix and counts them.
  method ClearKsPrefix(m: Partition, prefix: Key, queued: set<Key>, count0: nat) returns (batch: set<Key>, count: nat)
    ensures batch == queued + Under(prefix, m)
    ensures count == count0 + |Under(prefix, m)|
  {
    var items := Scan(Under(prefix, m));
    ScanCounts(items, Under(prefix, m));
    batch, count := queued, count0;
    var i := 0;
    while i < |items|
      invariant 0 <= i <= |items| && count == count0 + i
      invariant batch == queued + SetOf(items[..i])
    {
      var k := items[i];
      assert k in Under(prefix, m);
      if !(prefix <= k) {
        break;
      }
      assert items[..i + 1] == items[..i] + [k];
      batch, count, i := batch + {k}, count + 1, i + 1;
    }
    assert items[..|items|] == items;
    assert SetOf(items) == Under(prefix, m);
  }

  function SetOf(items: seq<Key>): set<Key> {
    set k | k in items
  }

  // ---------- removals ----------

  // Database (ns, db) gone: its keys in both partitions and its catalog entry.
  function DbRemoved(st: State, ns: u64, db: u64): State {
    var p := ScopePrefix(Scope(ns, db));
    State(Without(st.data, p), Without(st.meta, p) - {CatalogDbKey(ns, db)})
  }

  // Namespace gone: its keys, all its catalog entries and its database counter.
  function NamespaceRemoved(st: State, ns: u64): State {
    var p := NsPrefix(ns);
    State(Without(st.data, p), Without(Without(st.meta, p), CatalogNsPrefix(ns)) - {DbNextIdKey(ns)})
  }

  lemma BatchRemoves(st: State, prefix: Key, k: Key, rmData: set<Key>, rmMeta: set<Key>)
    requires rmData == {} + Under(prefix, st.data) && rmMeta == {} + Under(prefix, st.meta)
    ensures st.data - rmData == Without(st.data, prefix)
    ensures st.meta - (rmMeta + {k}) == Without(st.meta, prefix) - {k}
  {
    assert rmData == Under(prefix, st.data) && rmMeta == Under(prefix, st.meta);
  }

  method DbRm(st: State, ns: u64, db: u64) returns (after: State, count: nat)
    ensures after == DbRemoved(st, ns, db)
    ensures count == |Under(ScopePrefix(Scope(ns, db)), st.data)| + |Under(ScopePrefix(Scope(ns, db)), st.meta)|
  {
    var prefix := ScopePrefix(Scope(ns, db));
    var rmData, rmMeta;
    rmData, count := ClearKsPrefix(st.data, prefix, {}, 0);
    rmMeta, count := ClearKsPrefix(st.meta, prefix, {}, count);
    after := State(st.data - rmData, st.meta - (rmMeta + {CatalogDbKey(ns, db)}));
    BatchRemoves(st, prefix, CatalogDbKey(ns, db), rmData, rmMeta);
  }

  method NamespaceRm(st: State, ns: u64) returns (after: State, count: nat)
    ensures after == NamespaceRemoved(st, ns)
    ensures count == |Under(NsPrefix(ns), st.data)| + |Under(NsPrefix(ns), st.meta)|
  {
    var prefix := NsPrefix(ns);
    var rmData, rmMeta, catalog;
    rmData, count := ClearKsPrefix(st.data, prefix, {}, 0);
    rmMeta, count := ClearKsPrefix(st.meta, prefix, {}, count);
    rmMeta, catalog := ClearKsPrefix(st.meta, CatalogNsPrefix(ns), rmMeta, 0);
    rmMeta := rmMeta + {DbNextIdKey(ns)};
    OneBatch(st.meta, prefix, CatalogNsPrefix(ns), DbNextIdKey(ns));
    after := State(st.data - rmData, st.meta - rmMeta);
  }

  // One batch removes what the removals one after the other do.
  lemma OneBatch(m: Partition, p: Key, q: Key, k: Key)
    ensures m - ({} + Under(p, m) + Under(q, m) + {k}) == Without(Without(m, p), q) - {k}
  {
  }

  // ---------- what removals leave alone ----------

  // key k has the same fate in both partitions
  predicate SameAt(a: Partition, b: Partition, k: Key) {
    (k in a <==> k in b) && (k in a ==> a[k] == b[k])
  }

  lemma ScopeStartsWithZero(s: Scope, k: Key)
    ensures ScopePrefix(s)[0] == 0 && NsPrefix(s.ns)[0] == 0
    ensures k != [] && k[0] != 0 ==> !(ScopePrefix(s) <= k) && !(NsPrefix(s.ns) <= k)
  {
  }

  // Removing a database changes exactly its own keys and its catalog entry: keys of
  // every other scope, catalog entries of every other database and all counters stay.
  lemma DbRemovalFrame(st: State, ns: u64, db: u64, k: Key)
    ensures var s, after := Scope(ns, db), DbRemoved(st, ns, db);
      && SameAt(st.data, after.data, k) == !(k in st.data && ScopePrefix(s) <= k)
      && SameAt(st.meta, after.meta, k) == !(k in st.meta && (ScopePrefix(s) <= k || k == CatalogDbKey(ns, db)))
  {
  }

  lemma DbRemovalIsolates(st: State, ns: u64, db: u64, t: Scope, k: Key)
    requires t != Scope(ns, db)
    ensures var after := DbRemoved(st, ns, db);
      && (ScopePrefix(t) <= k ==> SameAt(st.data, after.data, k) && SameAt(st.meta, after.meta, k))
      && SameAt(st.meta, after.meta, CatalogDbKey(t.ns, t.db))
      && SameAt(st.meta, after.meta, DbNextIdKey(t.ns)) && SameAt(st.meta, after.meta, NS_NEXT_ID_KEY)
  {
    var s := Scope(ns, db);
    if ScopePrefix(t) <= k {
      if ScopePrefix(s) <= k {
        OneScope(s, t, k);
      }
      assert k[0] == 0;
    }
    if CatalogDbKey(t.ns, t.db) == CatalogDbKey(ns, db) {
      CatalogKeysInjective(t.ns, t.db, ns, db);
    }
    ScopeStartsWithZero(s, CatalogDbKey(t.ns, t.db));
    ScopeStartsWithZero(s, DbNextIdKey(t.ns));
    ScopeStartsWithZero(s, NS_NEXT_ID_KEY);
    assert DbNextIdKey(t.ns)[1] == 0x01 && CatalogDbKey(ns, db)[1] == 0x02 && NS_NEXT_ID_KEY[1] == 0x01;
  }

  // Nothing of the removed database is left.
  lemma DbRemovalComplete(st: State, ns: u64, db: u64)
    ensures var after := DbRemoved(st, ns, db);
      && Under(ScopePrefix(Scope(ns, db)), after.data) == {} == Under(ScopePrefix(Scope(ns, db)), after.meta)
      && CatalogDbKey(ns, db) !in after.meta
  {
  }

  lemma NsRemovalIsolates(st: State, ns: u64, t: Scope, k: Key)
    requires t.ns != ns
    ensures var after := NamespaceRemoved(st, ns);
      && (ScopePrefix(t) <= k ==> SameAt(st.data, after.data, k) && SameAt(st.meta, after.meta, k))
      && SameAt(st.meta, after.meta, CatalogDbKey(t.ns, t.db))
      && SameAt(st.meta, after.meta, DbNextIdKey(t.ns)) && SameAt(st.meta, after.meta, NS_NEXT_ID_KEY)
  {
    if ScopePrefix(t) <= k {
      var x := k[|ScopePrefix(t)|..];
      assert k == ScopePrefix(t) + x;
      NsPrefixIff(ns, t, x);
      assert k[0] == 0 && CatalogNsPrefix(ns)[0] == 0xFF && DbNextIdKey(ns)[0] == 0xFF;
    }
    var s := Scope(ns, 0);
    CatalogPrefixIff(ns, t.ns, t.db);
    ScopeStartsWithZero(s, CatalogDbKey(t.ns, t.db));
    ScopeStartsWithZero(s, DbNextIdKey(t.ns));
    ScopeStartsWithZero(s, NS_NEXT_ID_KEY);
    CountersApart(ns, t.ns, t.db);
  }

  lemma CountersApart(ns: u64, ns': u64, db: u64)
    ensures ns != ns' ==> DbNextIdKey(ns) != DbNextIdKey(ns')
    ensures DbNextIdKey(ns) != NS_NEXT_ID_KEY && DbNextIdKey(ns) != CatalogDbKey(ns', db)
    ensures !(CatalogNsPrefix(ns) <= DbNextIdKey(ns')) && !(CatalogNsPrefix(ns) <= NS_NEXT_ID_KEY)
  {
    assert DbNextIdKey(ns)[3..] == Oppv(ns) && DbNextIdKey(ns')[3..] == Oppv(ns');
    if ns != ns' {
      OppvOrderIff(ns, ns', [], []);
    }
    assert DbNextIdKey(ns')[1] == 0x01 && NS_NEXT_ID_KEY[1] == 0x01 && CatalogNsPrefix(ns)[1] == 0x02;
    assert DbNextIdKey(ns)[1] == 0x01 && CatalogDbKey(ns', db)[1] == 0x02;
    assert DbNextIdKey(ns)[2] == 0x05 && NS_NEXT_ID_KEY[2] == 0x03;
  }

  lemma NsRemovalComplete(st: State, ns: u64, db: u64)
    ensures var after := NamespaceRemoved(st, ns);
      && Under(ScopePrefix(Scope(ns, db)), after.data) == {} == Under(ScopePrefix(Scope(ns, db)), after.meta)
      && CatalogDbKey(ns, db) !in after.meta && DbNextIdKey(ns) !in after.meta
  {
    CatalogPrefixIff(ns, ns, db);
    NothingLeft(st.data, ns, db);
    NothingLeft(st.meta, ns, db);
  }

  // A key of one of its databases is a key of the namespace.
  lemma ScopeInNs(ns: u64, db: u64, k: Key)
    requires ScopePrefix(Scope(ns, db)) <= k
    ensures NsPrefix(ns) <= k
  {
    var q := ScopePrefix(Scope(ns, db));
    assert k == q + k[|q|..];
    NsPrefixIff(ns, Scope(ns, db), k[|q|..]);
  }

  lemma NothingLeft(m: Partition, ns: u64, db: u64)
    ensures Under(ScopePrefix(Scope(ns, db)), Without(m, NsPrefix(ns))) == {}
  {
    forall k | k in Under(ScopePrefix(Scope(ns, db)), m) ensures k in Under(NsPrefix(ns), m) {
      ScopeInNs(ns, db, k);
    }
  }

  // Removing every database of a namespace one by one leaves of its scopes what
  // removing the namespace leaves: nothing. The counter is the difference.
  lemma DbRemovalKeepsCounter(st: State, ns: u64, db: u64)
    ensures SameAt(st.meta, DbRemoved(st, ns, db).meta, DbNextIdKey(ns))
    ensures DbNextIdKey(ns) !in NamespaceRemoved(st, ns).meta
  {
    ScopeStartsWithZero(Scope(ns, db), DbNextIdKey(ns));
    CountersApart(ns, ns, db);
  }
}
