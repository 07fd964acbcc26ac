/**
 The tenant catalog: opening, allocating and removing namespaces and databases, and the
 iterators that stream the catalogued ids in order.
 */
module Catalog {
  import opened Wrappers
  import opened Words
  import opened Bytes
  import opened Varint
  import opened Keys
  import opened Store

  const U64_MAX: u64 := 0xFFFF_FFFF_FFFF_FFFF

  predicate InCatalog(meta: Partition, ns: u64, db: u64) {
    CatalogDbKey(ns, db) in meta
  }

  // some database of the namespace is catalogued
  ghost predicate HasNamespace(meta: Partition, ns: u64) {
    exists db: u64 :: InCatalog(meta, ns, db)
  }

  ghost predicate IsCatalogKey(k: Key) {
    exists ns: u64, db: u64 :: k == CatalogDbKey(ns, db)
  }

  // Under the catalog's prefix there are catalog keys only.
  ghost predicate CatalogOk(meta: Partition) {
    forall k :: k in meta && CATALOG_PREFIX <= k ==> IsCatalogKey(k)
  }

  // the id a counter hands out next: 1 when it is absent or unreadable
  function NextId(meta: Partition, counter: Key): (r: nat)
    ensures r <= U64_MAX
  {
    if counter in meta && Decode(meta[counter]).Some? then
      DecodeBounds(meta[counter]);
      Decode(meta[counter]).value.0
    else 1
  }

  lemma StoredNext(meta: Partition, counter: Key, v: u64)
    ensures NextId(meta[counter := Oppv(v)], counter) == v
  {
    DecodeEncode(v, []);
    assert Oppv(v) + [] == Oppv(v);
  }

  // the id after this one; the last wraps to 0
  function After(id: u64): u64 {
    if id == U64_MAX then 0 else id + 1
  }

  lemma FirstBytes(ns: u64, db: u64)
    ensures CATALOG_PREFIX <= CatalogDbKey(ns, db)
    ensures !(CATALOG_PREFIX <= NS_NEXT_ID_KEY) && !(CATALOG_PREFIX <= DbNextIdKey(ns))
  {
    assert CATALOG_PREFIX[1] == 0x02 && NS_NEXT_ID_KEY[1] == 0x01 && DbNextIdKey(ns)[1] == 0x01;
  }

  lemma ScopedIsNoCatalogKey(s: Scope, rest: Key)
    ensures !(CATALOG_PREFIX <= ScopePrefix(s) + rest)
  {
    assert CATALOG_PREFIX[0] == 0xFF && (ScopePrefix(s) + rest)[0] == 0;
  }

  // every catalogued database of the namespace lies below its counter
  ghost predicate CounterAhead(meta: Partition, ns: u64) {
    forall db: u64 :: InCatalog(meta, ns, db) ==> db < NextId(meta, DbNextIdKey(ns))
  }

  // Cataloguing a database leaves the counters and every other entry alone.
  lemma OpenedEntry(meta: Partition, ns: u64, db: u64, ns': u64, db': u64)
    ensures var after := meta[CatalogDbKey(ns, db) := []];
      && (InCatalog(after, ns', db') <==> InCatalog(meta, ns', db') || (ns', db') == (ns, db))
      && NextId(after, DbNextIdKey(ns')) == NextId(meta, DbNextIdKey(ns'))
  {
    CountersApart(ns', ns, db);
    if CatalogDbKey(ns, db) == CatalogDbKey(ns', db') {
      CatalogKeysInjective(ns, db, ns', db');
    }
  }

  // Opening by number keeps the counter ahead exactly when the number lies below it.
  lemma OpenKeepsAheadIff(meta: Partition, ns: u64, db: u64)
    requires CounterAhead(meta, ns)
    ensures CounterAhead(meta[CatalogDbKey(ns, db) := []], ns) <==> db < NextId(meta, DbNextIdKey(ns))
  {
    var after := meta[CatalogDbKey(ns, db) := []];
    forall db': u64 ensures InCatalog(after, ns, db') <==> InCatalog(meta, ns, db') || db' == db {
      OpenedEntry(meta, ns, db, ns, db');
    }
    OpenedEntry(meta, ns, db, ns, db);
    assert InCatalog(after, ns, db);
  }

  // Allocating an id keeps it ahead exactly when there is one left.
  lemma AllocateKeepsAheadIff(meta: Partition, ns: u64, id: u64)
    requires CounterAhead(meta, ns) && id == NextId(meta, DbNextIdKey(ns))
    ensures CounterAhead(meta[DbNextIdKey(ns) := Oppv(After(id))][CatalogDbKey(ns, id) := []], ns) <==> id < U64_MAX
  {
    var next := meta[DbNextIdKey(ns) := Oppv(After(id))];
    var after := next[CatalogDbKey(ns, id) := []];
    StoredNext(meta, DbNextIdKey(ns), After(id));
    forall db: u64 ensures InCatalog(after, ns, db) <==> InCatalog(meta, ns, db) || db == id {
      OpenedEntry(next, ns, id, ns, db);
      CountersApart(ns, ns, db);
    }
    OpenedEntry(next, ns, id, ns, id);
    assert InCatalog(after, ns, id);
  }

  // ---------- the database manager ----------

  class WeDb {
    var data: Partition
    var meta: Partition

    ghost predicate Valid()
      reads this
    {
      CatalogOk(meta)
    }

    ghost function St(): State
      reads this
    {
      State(data, meta)
    }

    // Over partitions that already hold what earlier runs left.
    constructor (data: Partition, meta: Partition)
      requires CatalogOk(meta)
      ensures Valid() && this.data == data && this.meta == meta[CatalogDbKey(0, 0) := []]
    {
      FirstBytes(0, 0);
      this.data, this.meta := data, meta[CatalogDbKey(0, 0) := []];
    }

    method ActivateDb(ns: u64, db: u64)
      requires Valid()
      modifies `meta
      ensures Valid() && meta == old(meta)[CatalogDbKey(ns, db) := []]
    {
      meta := meta[CatalogDbKey(ns, db) := []];
    }

    // Hands out a counter's id and stores the one after it.
    method Advance(counter: Key) returns (id: u64)
      requires Valid() && !(CATALOG_PREFIX <= counter)
      modifies `meta
      ensures Valid() && id == old(NextId(meta, counter))
      ensures meta == old(meta)[counter := Oppv(After(id))] && NextId(meta, counter) == After(id)
    {
      id := NextId(meta, counter);
      StoredNext(meta, counter, After(id));
      meta := meta[counter := Oppv(After(id))];
    }

    method NextNamespaceId() returns (id: u64)
      requires Valid()
      modifies `meta
      ensures Valid() && id == old(NextId(meta, NS_NEXT_ID_KEY))
      ensures meta == old(meta)[NS_NEXT_ID_KEY := Oppv(After(id))] && NextId(meta, NS_NEXT_ID_KEY) == After(id)
    {
      FirstBytes(0, 0);
      id := Advance(NS_NEXT_ID_KEY);
    }

    method NextDbId(ns: u64) returns (id: u64)
      requires Valid()
      modifies `meta
      ensures Valid() && id == old(NextId(meta, DbNextIdKey(ns)))
      ensures meta == old(meta)[DbNextIdKey(ns) := Oppv(After(id))] && NextId(meta, DbNextIdKey(ns)) == After(id)
    {
      FirstBytes(ns, 0);
      id := Advance(DbNextIdKey(ns));
    }

    // Opening a namespace by number touches nothing; a new one is catalogued with its
    // database 0.
    method Ns(id: Option<u64>) returns (ns: u64)
      requires Valid()
      modifies `meta
      ensures Valid()
      ensures id.Some? ==> ns == id.value && meta == old(meta)
      ensures id.None? ==> ns == old(NextId(meta, NS_NEXT_ID_KEY))
      ensures id.None? ==> meta == old(meta)[NS_NEXT_ID_KEY := Oppv(After(ns))][CatalogDbKey(ns, 0) := []]
    {
      match id {
        case Some(n) => ns := n;
        case None =>
          ns := NextNamespaceId();
          ActivateDb(ns, 0);
      }
    }

    // Opening a database catalogues it, whether its number is given or allocated.
    method Db(ns: u64, id: Option<u64>) returns (s: Scope)
      requires Valid()
      modifies `meta
      ensures Valid() && s.ns == ns
      ensures id.Some? ==> s.db == id.value && meta == old(meta)[CatalogDbKey(ns, s.db) := []]
      ensures id.None? ==> s.db == old(NextId(meta, DbNextIdKey(ns)))
      ensures id.None? ==> meta == old(meta)[DbNextIdKey(ns) := Oppv(After(s.db))][CatalogDbKey(ns, s.db) := []]
      ensures id.None? && old(CounterAhead(meta, ns)) ==> !old(InCatalog(meta, ns, s.db))
      ensures old(CounterAhead(meta, ns)) ==>
        (CounterAhead(meta, ns) <==> s.db < (if id.Some? then old(NextId(meta, DbNextIdKey(ns))) else U64_MAX))
    {
      var db: u64;
      match id {
        case Some(n) => db := n;
        case None => db := NextDbId(ns);
      }
      ActivateDb(ns, db);
      s := Scope(ns, db);
      if old(CounterAhead(meta, ns)) {
        if id.Some? {
          OpenKeepsAheadIff(old(meta), ns, db);
        } else {
          AllocateKeepsAheadIff(old(meta), ns, db);
        }
      }
    }

    // User data of any kind lands under its scope.
    method InsertData(s: Scope, rest: Key, value: Key)
      requires Valid()
      modifies `data
      ensures Valid() && data == old(data)[ScopePrefix(s) + rest := value]
    {
      data := data[ScopePrefix(s) + rest := value];
    }

    method InsertMeta(s: Scope, rest: Key, value: Key)
      requires Valid()
      modifies `meta
      ensures Valid() && meta == old(meta)[ScopePrefix(s) + rest := value]
    {
      ScopedIsNoCatalogKey(s, rest);
      meta := meta[ScopePrefix(s) + rest := value];
    }

    method RmDb(ns: u64, db: u64) returns (count: nat)
      requires Valid()
      modifies this
      ensures Valid() && St() == DbRemoved(old(St()), ns, db)
      ensures count == |Under(ScopePrefix(Scope(ns, db)), old(data))| + |Under(ScopePrefix(Scope(ns, db)), old(meta))|
    {
      var after;
      after, count := DbRm(State(data, meta), ns, db);
      data, meta := after.data, after.meta;
    }

    method RmNamespace(ns: u64) returns (count: nat)
      requires Valid()
      modifies this
      ensures Valid() && St() == NamespaceRemoved(old(St()), ns)
      ensures count == |Under(NsPrefix(ns), old(data))| + |Under(NsPrefix(ns), old(meta))|
    {
      var after;
      after, count := NamespaceRm(State(data, meta), ns);
      data, meta := after.data, after.meta;
    }

    // Everything goes, the default database's entry and all counters too.
    method Rm()
      requires Valid()
      modifies this
      ensures Valid() && St() == State(map[], map[])
    {
      data, meta := map[], map[];
    }

    method IterNamespaces(begin: u64) returns (it: Namespaces)
      requires Valid()
      ensures fresh(it) && it.Valid() && it.meta == meta && it.begin == begin && it.emitted == []
    {
      var start := NsStart(begin);
      var items := Scan(From(start, meta));
      it := new Namespaces(items, meta, begin);
    }

    method IterDbs(ns: u64, begin: u64) returns (it: Dbs)
      requires Valid()
      ensures fresh(it) && it.Valid() && it.meta == meta && it.ns == ns && it.begin == begin && it.emitted == []
    {
      var items := Scan(From(DbStart(ns, begin), meta));
      it := new Dbs(items, meta, ns, begin);
    }
  }

  // An allocated id is new if and only if the one the counter hands out is not
  // catalogued; afterwards it is.
  method AllocateDb(w: WeDb, ns: u64) returns (s: Scope)
    requires w.Valid()
    modifies w`meta
    ensures w.Valid() && s.ns == ns && InCatalog(w.meta, ns, s.db)
    ensures old(InCatalog(w.meta, ns, s.db)) <==> old(InCatalog(w.meta, ns, NextId(w.meta, DbNextIdKey(ns))))
    ensures forall db: u64 :: InCatalog(w.meta, ns, db) <==> old(InCatalog(w.meta, ns, db)) || db == s.db
  {
    ghost var before := w.meta;
    s := w.Db(ns, None);
    ghost var next := before[DbNextIdKey(ns) := Oppv(After(s.db))];
    forall db: u64 ensures InCatalog(w.meta, ns, db) <==> InCatalog(before, ns, db) || db == s.db {
      OpenedEntry(next, ns, s.db, ns, db);
      CountersApart(ns, ns, db);
    }
  }

  // The same for namespaces.
  method AllocateNs(w: WeDb) returns (ns: u64)
    requires w.Valid()
    modifies w`meta
    ensures w.Valid() && HasNamespace(w.meta, ns)
    ensures old(HasNamespace(w.meta, ns)) <==> old(HasNamespace(w.meta, NextId(w.meta, NS_NEXT_ID_KEY)))
  {
    ns := w.Ns(None);
    assert InCatalog(w.meta, ns, 0);
  }

  // Opening by number does not move the counter. In a store without a counter for the
  // namespace, database 1 is opened, something is written to it, and the next
  // allocation hands out the same database.
  method AllocatedMayBeOpen(w: WeDb, ns: u64, rest: Key, value: Key) returns (first: Scope, second: Scope)
    requires w.Valid() && DbNextIdKey(ns) !in w.meta
    modifies w
    ensures w.Valid() && first == second == Scope(ns, 1)
    ensures ScopePrefix(second) + rest in w.data && w.data[ScopePrefix(second) + rest] == value
  {
    CountersApart(ns, ns, 1);
    first := w.Db(ns, Some(1));
    w.InsertData(first, rest, value);
    second := w.Db(ns, None);
  }

  // ---------- where the scans start ----------

  function From(start: Key, m: Partition): set<Key> {
    set k | k in m && AtMost(start, k)
  }

  function NsStart(begin: u64): Key {
    if begin == 0 then CATALOG_PREFIX else CatalogNsPrefix(begin)
  }

  function DbStart(ns: u64, begin: u64): Key {
    if begin == 0 then CatalogNsPrefix(ns) else CatalogDbKey(ns, begin)
  }

  // The catalog keys at or behind the start are those of namespaces from begin on.
  lemma NsStartIff(begin: u64, ns: u64, db: u64)
    ensures AtMost(NsStart(begin), CatalogDbKey(ns, db)) <==> begin <= ns
  {
    var k := CatalogDbKey(ns, db);
    FirstBytes(ns, db);
    if begin == 0 {
      PrefixAtMost(CATALOG_PREFIX, k);
    } else if begin == ns {
      CatalogPrefixIff(begin, ns, db);
      PrefixAtMost(CatalogNsPrefix(begin), k);
    } else {
      CatalogPrefixIff(begin, ns, db);
      NsBelowIff(begin, ns, db);
    }
  }

  lemma NsBelowIff(begin: u64, ns: u64, db: u64)
    requires begin != ns
    ensures Below(CatalogNsPrefix(begin), CatalogDbKey(ns, db)) <==> begin < ns
    ensures CatalogNsPrefix(begin) != CatalogDbKey(ns, db)
  {
    var p, tail := CATALOG_PREFIX, Oppv(db);
    assert CatalogDbKey(ns, db) == p + Oppv(ns) + tail;
    CatalogPrefixIff(begin, ns, db);
    if begin < ns {
      OppvOrder(begin, ns);
      BeforeConcat(p, Oppv(begin), Oppv(ns));
      BeforeIsBelow(p + Oppv(begin), p + Oppv(ns), [], tail);
      assert p + Oppv(begin) + [] == p + Oppv(begin);
    } else {
      OppvOrder(ns, begin);
      BeforeConcat(p, Oppv(ns), Oppv(begin));
      BeforeIsBelow(p + Oppv(ns), p + Oppv(begin), tail, []);
      assert p + Oppv(begin) + [] == p + Oppv(begin);
      BelowTotal(CatalogNsPrefix(begin), CatalogDbKey(ns, db));
    }
  }

  lemma DbStartIff(ns: u64, begin: u64, db: u64)
    ensures AtMost(DbStart(ns, begin), CatalogDbKey(ns, db)) <==> begin <= db
  {
    if begin == 0 {
      CatalogPrefixIff(ns, ns, db);
      PrefixAtMost(CatalogNsPrefix(ns), CatalogDbKey(ns, db));
    } else {
      CatalogOrderIff(ns, begin, ns, db);
      if begin != db && CatalogDbKey(ns, begin) == CatalogDbKey(ns, db) {
        CatalogKeysInjective(ns, begin, ns, db);
      }
    }
  }

  // ---------- reading catalog keys ----------

  // the namespace of a key under the catalog's prefix, and the database of one under
  // its namespace's
  function NsOf(k: Key): Option<nat> {
    if CATALOG_PREFIX <= k && Decode(k[2..]).Some? then Some(Decode(k[2..]).value.0) else None
  }

  function DbOf(ns: u64, k: Key): Option<nat> {
    var n := |CatalogNsPrefix(ns)|;
    if CatalogNsPrefix(ns) <= k && Decode(k[n..]).Some? then Some(Decode(k[n..]).value.0) else None
  }

  lemma ReadCatalogKey(ns: u64, db: u64)
    ensures NsOf(CatalogDbKey(ns, db)) == Some(ns) && DbOf(ns, CatalogDbKey(ns, db)) == Some(db)
  {
    var k := CatalogDbKey(ns, db);
    FirstBytes(ns, db);
    CatalogPrefixIff(ns, ns, db);
    assert k[2..] == Oppv(ns) + Oppv(db);
    DecodeEncode(ns, Oppv(db));
    assert k[|CatalogNsPrefix(ns)|..] == Oppv(db) + [];
    DecodeEncode(db, []);
  }

  predicate Increasing(ids: seq<u64>) {
    forall i, j :: 0 <= i < j < |ids| ==> ids[i] < ids[j]
  }

  // ---------- namespaces ----------

  // From position pos on there are no catalog keys any more.
  predicate NoneLeft(p: Key, items: seq<Key>, pos: nat) {
    forall i :: pos <= i < |items| ==> !(p <= items[i])
  }

  // In a scan from the prefix on, the first key without it ends those with it.
  lemma EndOfPrefix(p: Key, items: seq<Key>, pos: nat)
    requires Ascending(items) && pos < |items| && AtMost(p, items[pos]) && !(p <= items[pos])
    ensures NoneLeft(p, items, pos)
  {
    forall i | pos <= i < |items| ensures !(p <= items[i]) {
      PastPrefix(p, items[pos], items[i]);
    }
  }

  lemma AtMostTransitive(a: Key, b: Key, c: Key)
    requires AtMost(a, b) && AtMost(b, c)
    ensures AtMost(a, c)
  {
    if a != b && b != c {
      BelowTransitive(a, b, c);
    }
  }

  ghost predicate NsScan(items: seq<Key>, meta: Partition, begin: u64) {
    CatalogOk(meta) && IsScan(items, From(NsStart(begin), meta))
  }

  // What the first pos items of the scan have given.
  ghost predicate NsProgress(items: seq<Key>, meta: Partition, begin: u64, pos: nat, emitted: seq<u64>) {
    && pos <= |items| && Increasing(emitted) && NsGiven(meta, begin, emitted)
    && NsSeen(items, pos, emitted) && NsLast(items, pos, emitted)
  }

  ghost predicate NsGiven(meta: Partition, begin: u64, emitted: seq<u64>) {
    forall e :: e in emitted ==> e >= begin && HasNamespace(meta, e)
  }

  // the namespaces of the first pos items were given
  predicate NsSeen(items: seq<Key>, pos: nat, emitted: seq<u64>)
    requires pos <= |items|
  {
    forall i :: 0 <= i < pos && CATALOG_PREFIX <= items[i] ==> NsOf(items[i]).Some? && NsOf(items[i]).value in emitted
  }

  // the last one given is that of an item passed
  predicate NsLast(items: seq<Key>, pos: nat, emitted: seq<u64>)
    requires pos <= |items|
  {
    emitted != [] ==> exists i :: 0 <= i < pos && NsOf(items[i]) == LastOf(emitted)
  }

  function LastOf(ids: seq<u64>): Option<nat> {
    if ids == [] then None else Some(ids[|ids| - 1])
  }

  lemma IncreasingAppend(ids: seq<u64>, id: u64)
    requires Increasing(ids) && (ids == [] || ids[|ids| - 1] < id)
    ensures Increasing(ids + [id])
  {
    var more := ids + [id];
    forall i, j | 0 <= i < j < |more| ensures more[i] < more[j] {
      if j == |ids| {
        assert ids[i] <= ids[|ids| - 1];
      }
    }
  }

  lemma NsSeenAppend(items: seq<Key>, pos: nat, emitted: seq<u64>, ns: u64)
    requires pos < |items| && NsSeen(items, pos, emitted) && NsOf(items[pos]) == Some(ns)
    ensures NsSeen(items, pos + 1, emitted + [ns]) && NsLast(items, pos + 1, emitted + [ns])
  {
    var more := emitted + [ns];
    assert more[|more| - 1] == ns;
    forall i | 0 <= i < pos + 1 && CATALOG_PREFIX <= items[i] ensures NsOf(items[i]).Some? && NsOf(items[i]).value in more {
      if i < pos {
        assert NsOf(items[i]).value in emitted;
      }
    }
  }

  // A catalog key of the scan and the namespace it belongs to.
  lemma NsItem(items: seq<Key>, meta: Partition, begin: u64, i: nat) returns (ns: u64, db: u64)
    requires NsScan(items, meta, begin) && i < |items| && CATALOG_PREFIX <= items[i]
    ensures items[i] == CatalogDbKey(ns, db) && NsOf(items[i]) == Some(ns)
    ensures ns >= begin && HasNamespace(meta, ns)
  {
    assert items[i] in From(NsStart(begin), meta);
    ns, db :| items[i] == CatalogDbKey(ns, db);
    ReadCatalogKey(ns, db);
    NsStartIff(begin, ns, db);
    assert InCatalog(meta, ns, db);
  }

  lemma NsLaterItem(items: seq<Key>, meta: Partition, begin: u64, i: nat, j: nat)
    requires NsScan(items, meta, begin) && i < j < |items|
    requires CATALOG_PREFIX <= items[i] && CATALOG_PREFIX <= items[j]
    ensures NsOf(items[i]).Some? && NsOf(items[j]).Some? && NsOf(items[i]).value <= NsOf(items[j]).value
  {
    var a, b := NsItem(items, meta, begin, i);
    var c, d := NsItem(items, meta, begin, j);
    CatalogOrderIff(a, b, c, d);
  }

  // A namespace other than the last one given is above it.
  lemma NsAboveLast(items: seq<Key>, meta: Partition, begin: u64, pos: nat, emitted: seq<u64>, ns: u64)
    requires NsScan(items, meta, begin) && pos < |items| && NsLast(items, pos, emitted)
    requires CATALOG_PREFIX <= items[pos] && NsOf(items[pos]) == Some(ns) && LastOf(emitted) != Some(ns)
    ensures emitted == [] || emitted[|emitted| - 1] < ns
  {
    if emitted != [] {
      var last := emitted[|emitted| - 1];
      var i :| 0 <= i < pos && NsOf(items[i]) == Some(last);
      NsBefore(items, meta, begin, i, pos, last, ns);
    }
  }

  lemma NsBefore(items: seq<Key>, meta: Partition, begin: u64, i: nat, j: nat, a: u64, b: u64)
    requires NsScan(items, meta, begin) && i < j < |items| && CATALOG_PREFIX <= items[j]
    requires NsOf(items[i]) == Some(a) && NsOf(items[j]) == Some(b) && a != b
    ensures a < b
  {
    NsLaterItem(items, meta, begin, i, j);
  }

  lemma NsEmit(items: seq<Key>, meta: Partition, begin: u64, pos: nat, emitted: seq<u64>) returns (ns: u64)
    requires NsScan(items, meta, begin) && NsProgress(items, meta, begin, pos, emitted)
    requires pos < |items| && CATALOG_PREFIX <= items[pos] && NsOf(items[pos]) != LastOf(emitted)
    ensures NsOf(items[pos]) == Some(ns) && NsProgress(items, meta, begin, pos + 1, emitted + [ns])
  {
    var db;
    ns, db := NsItem(items, meta, begin, pos);
    NsAboveLast(items, meta, begin, pos, emitted, ns);
    IncreasingAppend(emitted, ns);
    NsSeenAppend(items, pos, emitted, ns);
    NsGivenAppend(meta, begin, emitted, ns);
  }

  lemma NsGivenAppend(meta: Partition, begin: u64, emitted: seq<u64>, ns: u64)
    requires NsGiven(meta, begin, emitted) && ns >= begin && HasNamespace(meta, ns)
    ensures NsGiven(meta, begin, emitted + [ns])
  {
  }

  lemma NsSkip(items: seq<Key>, meta: Partition, begin: u64, pos: nat, emitted: seq<u64>)
    requires NsProgress(items, meta, begin, pos, emitted) && pos < |items|
    requires !(CATALOG_PREFIX <= items[pos]) || (emitted != [] && NsOf(items[pos]) == LastOf(emitted))
    ensures NsProgress(items, meta, begin, pos + 1, emitted)
  {
    LastStays(items, pos, emitted);
    SeenStays(items, pos, emitted);
  }

  lemma LastStays(items: seq<Key>, pos: nat, emitted: seq<u64>)
    requires pos < |items| && NsLast(items, pos, emitted)
    ensures NsLast(items, pos + 1, emitted)
  {
    if emitted != [] {
      var i :| 0 <= i < pos && NsOf(items[i]) == LastOf(emitted);
      assert 0 <= i < pos + 1;
    }
  }

  lemma SeenStays(items: seq<Key>, pos: nat, emitted: seq<u64>)
    requires pos < |items| && NsSeen(items, pos, emitted)
    requires !(CATALOG_PREFIX <= items[pos]) || (emitted != [] && NsOf(items[pos]) == LastOf(emitted))
    ensures NsSeen(items, pos + 1, emitted)
  {
    forall i | 0 <= i < pos + 1 && CATALOG_PREFIX <= items[i] ensures NsOf(items[i]).Some? && NsOf(items[i]).value in emitted {
      if i == pos {
        assert emitted[|emitted| - 1] in emitted;
      }
    }
  }

  // Everything was given when no catalog key is left.
  lemma NsComplete(items: seq<Key>, meta: Partition, begin: u64, pos: nat, emitted: seq<u64>, ns: u64)
    requires NsScan(items, meta, begin) && NsProgress(items, meta, begin, pos, emitted)
    requires NoneLeft(CATALOG_PREFIX, items, pos)
    ensures ns in emitted <==> ns >= begin && HasNamespace(meta, ns)
  {
    if ns >= begin && HasNamespace(meta, ns) {
      var db: u64 :| InCatalog(meta, ns, db);
      NsStartIff(begin, ns, db);
      FirstBytes(ns, db);
      ReadCatalogKey(ns, db);
      assert CatalogDbKey(ns, db) in items;
    }
  }

  // Streams the namespaces of the catalog as it was when the iterator was made.
  class Namespaces {
    const items: seq<Key>
    var pos: nat
    var lastEmitted: Option<u64>
    ghost const meta: Partition
    ghost const begin: u64
    ghost var emitted: seq<u64>

    ghost predicate Valid()
      reads this
    {
      && NsScan(items, meta, begin) && NsProgress(items, meta, begin, pos, emitted)
      && lastEmitted == LastOf(emitted)
    }

    ghost predicate Done()
      reads this
    {
      NoneLeft(CATALOG_PREFIX, items, pos)
    }

    constructor (items: seq<Key>, ghost meta: Partition, ghost begin: u64)
      requires NsScan(items, meta, begin)
      ensures Valid() && this.meta == meta && this.begin == begin && emitted == []
    {
      this.items, pos, lastEmitted := items, 0, None;
      this.meta, this.begin, emitted := meta, begin, [];
    }

    // Gives the next catalogued namespace, in strictly ascending order; None exactly
    // when all from begin on were given, and then for ever.
    method Next() returns (r: Option<u64>)
      requires Valid()
      modifies this
      ensures Valid()
      ensures r.Some? ==> emitted == old(emitted) + [r.value] && !old(Done())
      ensures r.None? ==> emitted == old(emitted) && Done()
      ensures r.None? ==> forall ns: u64 :: ns in emitted <==> ns >= begin && HasNamespace(meta, ns)
    {
      while pos < |items|
        invariant Valid() && emitted == old(emitted) && pos >= old(pos)
        decreases |items| - pos
      {
        if !(CATALOG_PREFIX <= items[pos]) {
          Finish();
          return None;
        }
        SameNamespace(items, meta, begin, pos);
        var found := NsOf(items[pos]);
        if found.Some? && (lastEmitted.None? || found.value != lastEmitted.value) {
          var ns := Emit();
          return Some(ns);
        }
        Pass();
      }
      AllGiven();
      r := None;
    }

    // The key is not a catalog key or belongs to the namespace given last.
    method Pass()
      requires Valid() && pos < |items|
      requires !(CATALOG_PREFIX <= items[pos]) || (emitted != [] && NsOf(items[pos]) == LastOf(emitted))
      modifies `pos
      ensures Valid() && pos == old(pos) + 1
    {
      NsSkip(items, meta, begin, pos, emitted);
      pos := pos + 1;
    }

    // The catalog ends here.
    method Finish()
      requires Valid() && pos < |items| && !(CATALOG_PREFIX <= items[pos])
      modifies `pos
      ensures Valid() && Done()
      ensures forall ns: u64 :: ns in emitted <==> ns >= begin && HasNamespace(meta, ns)
    {
      PrefixedStart(items, meta, begin, pos);
      EndOfPrefix(CATALOG_PREFIX, items, pos);
      Pass();
      AllGiven();
    }

    // The key starts another namespace.
    method Emit() returns (ns: u64)
      requires Valid() && pos < |items| && CATALOG_PREFIX <= items[pos]
      requires NsOf(items[pos]).Some? && NsOf(items[pos]) != LastOf(emitted)
      modifies this
      ensures Valid() && emitted == old(emitted) + [ns] && pos == old(pos) + 1
    {
      ghost var next := NsEmit(items, meta, begin, pos, emitted);
      NsOfIsU64(items[pos]);
      ns := NsOf(items[pos]).value;
      emitted := emitted + [next];
      lastEmitted, pos := Some(ns), pos + 1;
    }

    lemma AllGiven()
      requires Valid() && Done()
      ensures forall ns: u64 :: ns in emitted <==> ns >= begin && HasNamespace(meta, ns)
    {
      forall ns: u64 ensures ns in emitted <==> ns >= begin && HasNamespace(meta, ns) {
        NsComplete(items, meta, begin, pos, emitted, ns);
      }
    }
  }

  lemma NsOfIsU64(k: Key)
    ensures NsOf(k).Some? ==> NsOf(k).value <= U64_MAX
  {
    if NsOf(k).Some? {
      DecodeBounds(k[2..]);
    }
  }

  lemma SameNamespace(items: seq<Key>, meta: Partition, begin: u64, pos: nat)
    requires NsScan(items, meta, begin) && pos < |items| && CATALOG_PREFIX <= items[pos]
    ensures NsOf(items[pos]).Some?
  {
    var ns, db := NsItem(items, meta, begin, pos);
  }

  lemma PrefixedStart(items: seq<Key>, meta: Partition, begin: u64, pos: nat)
    requires NsScan(items, meta, begin) && pos < |items|
    ensures AtMost(CATALOG_PREFIX, items[pos])
  {
    assert items[pos] in From(NsStart(begin), meta);
    PrefixAtMost(CATALOG_PREFIX, NsStart(begin));
    AtMostTransitive(CATALOG_PREFIX, NsStart(begin), items[pos]);
  }

  // ---------- databases of one namespace ----------

  ghost predicate DbScan(items: seq<Key>, meta: Partition, ns: u64, begin: u64) {
    CatalogOk(meta) && IsScan(items, From(DbStart(ns, begin), meta))
  }

  ghost predicate DbProgress(items: seq<Key>, meta: Partition, ns: u64, begin: u64, pos: nat, emitted: seq<u64>) {
    && pos <= |items| && Increasing(emitted) && DbGiven(meta, ns, begin, emitted)
    && DbSeen(items, ns, pos, emitted) && DbLast(items, ns, pos, emitted)
  }

  predicate DbGiven(meta: Partition, ns: u64, begin: u64, emitted: seq<u64>) {
    forall e :: e in emitted ==> e >= begin && InCatalog(meta, ns, e)
  }

  predicate DbSeen(items: seq<Key>, ns: u64, pos: nat, emitted: seq<u64>)
    requires pos <= |items|
  {
    forall i :: 0 <= i < pos && CatalogNsPrefix(ns) <= items[i] ==>
      DbOf(ns, items[i]).Some? && DbOf(ns, items[i]).value in emitted
  }

  predicate DbLast(items: seq<Key>, ns: u64, pos: nat, emitted: seq<u64>)
    requires pos <= |items|
  {
    emitted != [] ==> exists i :: 0 <= i < pos && DbOf(ns, items[i]) == Some(emitted[|emitted| - 1])
  }

  lemma DbSeenAppend(items: seq<Key>, ns: u64, pos: nat, emitted: seq<u64>, db: u64)
    requires pos < |items| && DbSeen(items, ns, pos, emitted) && DbOf(ns, items[pos]) == Some(db)
    ensures DbSeen(items, ns, pos + 1, emitted + [db]) && DbLast(items, ns, pos + 1, emitted + [db])
  {
    var more := emitted + [db];
    assert more[|more| - 1] == db;
    forall i | 0 <= i < pos + 1 && CatalogNsPrefix(ns) <= items[i]
      ensures DbOf(ns, items[i]).Some? && DbOf(ns, items[i]).value in more
    {
      if i < pos {
        assert DbOf(ns, items[i]).value in emitted;
      }
    }
  }

  lemma NsPrefixIsCatalog(ns: u64, k: Key)
    requires CatalogNsPrefix(ns) <= k
    ensures CATALOG_PREFIX <= k
  {
    assert CATALOG_PREFIX <= CatalogNsPrefix(ns);
  }

  lemma DbItem(items: seq<Key>, meta: Partition, ns: u64, begin: u64, i: nat) returns (db: u64)
    requires DbScan(items, meta, ns, begin) && i < |items| && CatalogNsPrefix(ns) <= items[i]
    ensures items[i] == CatalogDbKey(ns, db) && DbOf(ns, items[i]) == Some(db)
    ensures db >= begin && InCatalog(meta, ns, db)
  {
    assert items[i] in From(DbStart(ns, begin), meta);
    NsPrefixIsCatalog(ns, items[i]);
    var ns': u64, d: u64 :| items[i] == CatalogDbKey(ns', d);
    CatalogPrefixIff(ns, ns', d);
    db := d;
    ReadCatalogKey(ns, db);
    DbStartIff(ns, begin, db);
  }

  lemma DbEmit(items: seq<Key>, meta: Partition, ns: u64, begin: u64, pos: nat, emitted: seq<u64>) returns (db: u64)
    requires DbScan(items, meta, ns, begin) && DbProgress(items, meta, ns, begin, pos, emitted)
    requires pos < |items| && CatalogNsPrefix(ns) <= items[pos]
    ensures DbOf(ns, items[pos]) == Some(db) && DbProgress(items, meta, ns, begin, pos + 1, emitted + [db])
  {
    db := DbItem(items, meta, ns, begin, pos);
    if emitted != [] {
      var i :| 0 <= i < pos && DbOf(ns, items[i]) == Some(emitted[|emitted| - 1]);
      var last := DbItem(items, meta, ns, begin, i);
      CatalogOrderIff(ns, last, ns, db);
    }
    IncreasingAppend(emitted, db);
    DbSeenAppend(items, ns, pos, emitted, db);
  }

  lemma DbComplete(items: seq<Key>, meta: Partition, ns: u64, begin: u64, pos: nat, emitted: seq<u64>, db: u64)
    requires DbScan(items, meta, ns, begin) && DbProgress(items, meta, ns, begin, pos, emitted)
    requires NoneLeft(CatalogNsPrefix(ns), items, pos)
    ensures db in emitted <==> db >= begin && InCatalog(meta, ns, db)
  {
    if db >= begin && InCatalog(meta, ns, db) {
      DbStartIff(ns, begin, db);
      CatalogPrefixIff(ns, ns, db);
      ReadCatalogKey(ns, db);
      assert CatalogDbKey(ns, db) in items;
    }
  }

  lemma DbPrefixedStart(items: seq<Key>, meta: Partition, ns: u64, begin: u64, pos: nat)
    requires DbScan(items, meta, ns, begin) && pos < |items|
    ensures AtMost(CatalogNsPrefix(ns), items[pos])
  {
    assert items[pos] in From(DbStart(ns, begin), meta);
    CatalogPrefixIff(ns, ns, begin);
    PrefixAtMost(CatalogNsPrefix(ns), DbStart(ns, begin));
    AtMostTransitive(CatalogNsPrefix(ns), DbStart(ns, begin), items[pos]);
  }

  class Dbs {
    const ns: u64
    const items: seq<Key>
    var pos: nat
    ghost const meta: Partition
    ghost const begin: u64
    ghost var emitted: seq<u64>

    ghost predicate Valid()
      reads this
    {
      DbScan(items, meta, ns, begin) && DbProgress(items, meta, ns, begin, pos, emitted)
    }

    ghost predicate Done()
      reads this
    {
      NoneLeft(CatalogNsPrefix(ns), items, pos)
    }

    constructor (items: seq<Key>, ghost meta: Partition, ns: u64, ghost begin: u64)
      requires DbScan(items, meta, ns, begin)
      ensures Valid() && this.meta == meta && this.ns == ns && this.begin == begin && emitted == []
    {
      this.ns, this.items, pos := ns, items, 0;
      this.meta, this.begin, emitted := meta, begin, [];
    }

    // Gives the namespace's next catalogued database; None exactly when all from begin
    // on were given, and then for ever.
    method Next() returns (r: Option<u64>)
      requires Valid()
      modifies this
      ensures Valid()
      ensures r.Some? ==> emitted == old(emitted) + [r.value] && !old(Done())
      ensures r.None? ==> emitted == old(emitted) && Done()
      ensures r.None? ==> forall db: u64 :: db in emitted <==> db >= begin && InCatalog(meta, ns, db)
    {
      if pos < |items| {
        var k := items[pos];
        if CatalogNsPrefix(ns) <= k {
          ghost var db := DbEmit(items, meta, ns, begin, pos, emitted);
          var found := DbOf(ns, k);
          DbOfIsU64(ns, k);
          emitted, pos := emitted + [db], pos + 1;
          return Some(found.value);
        }
        DbPrefixedStart(items, meta, ns, begin, pos);
        EndOfPrefix(CatalogNsPrefix(ns), items, pos);
        pos := pos + 1;
      }
      AllGiven();
      r := None;
    }

    lemma AllGiven()
      requires Valid() && Done()
      ensures forall db: u64 :: db in emitted <==> db >= begin && InCatalog(meta, ns, db)
    {
      forall db: u64 ensures db in emitted <==> db >= begin && InCatalog(meta, ns, db) {
        DbComplete(items, meta, ns, begin, pos, emitted, db);
      }
    }
  }

  lemma DbOfIsU64(ns: u64, k: Key)
    ensures DbOf(ns, k).Some? ==> DbOf(ns, k).value <= U64_MAX
  {
    if DbOf(ns, k).Some? {
      DecodeBounds(k[|CatalogNsPrefix(ns)|..]);
    }
  }
}
