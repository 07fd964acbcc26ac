/**
 Physical keys. Every key of a database starts with its scope, a zero byte and the two
 codes of namespace and database; a tag and the user's key follow. Catalog entries and
 counters start with 0xFF.
 */
module Keys {
  import opened Wrappers
  import opened Words
  import opened Bytes
  import opened Varint

  datatype Scope = Scope(ns: u64, db: u64)

  function ScopePrefix(s: Scope): Key { [0] + Pair(s.ns, s.db) }
  function NsPrefix(ns: u64): Key { [0] + Oppv(ns) }

  const CATALOG_PREFIX: Key := [0xFF, 0x02]
  const NS_NEXT_ID_KEY: Key := [0xFF, 0x01, 0x03]
  const DB_NEXT_ID_PREFIX: Key := [0xFF, 0x01, 0x05]

  function CatalogNsPrefix(ns: u64): Key { CATALOG_PREFIX + Oppv(ns) }
  function CatalogDbKey(ns: u64, db: u64): Key { CATALOG_PREFIX + Pair(ns, db) }
  function DbNextIdKey(ns: u64): Key { DB_NEXT_ID_PREFIX + Oppv(ns) }

  // ---------- composed keys ----------

  function MetaKey(s: Scope, tag: Key, key: Key): Key {
    ScopePrefix(s) + tag + key
  }

  // the key's length in front of it keeps one key's subkeys apart from another's
  function SubPrefix(s: Scope, tag: Key, key: Key): Key
    requires |key| < 0x1_0000_0000_0000_0000
  {
    ScopePrefix(s) + tag + Oppv(|key|) + key
  }

  function SubKey(s: Scope, tag: Key, key: Key, sub: Key): Key
    requires |key| < 0x1_0000_0000_0000_0000
  {
    SubPrefix(s, tag, key) + sub
  }

  // ---------- tags ----------

  const MAX_TAG: nat := 0x22

  // tags of subkeys; all others up to 0x22 carry the user's key alone
  predicate IsDataTag(t: byte) {
    t in {0x02, 0x04, 0x06, 0x08, 0x09, 0x0B, 0x0D, 0x0F, 0x13, 0x15, 0x17, 0x18, 0x19, 0x1A, 0x1C, 0x1E, 0x21, 0x22}
  }

  predicate IsTag(t: byte) { t <= MAX_TAG }

  // ---------- reading keys ----------

  predicate IsKeyInScope(s: Scope, full: Key) {
    var p := ScopePrefix(s);
    p <= full && |full| > |p| && IsTag(full[|p|])
  }

  function ExtractUserKey(s: Scope, full: Key): Option<Key> {
    var p := ScopePrefix(s);
    if !(p <= full) || |full| == |p| || !IsTag(full[|p|]) then None
    else
      var rest := full[|p| + 1..];
      if !IsDataTag(full[|p|]) then Some(rest)
      else ExtractFramed(rest)
  }

  // a length and as many bytes
  function ExtractFramed(rest: Key): Option<Key> {
    var r := Decode(rest);
    if r.None? then None
    else
      var (n, used) := r.value;
      if used + n <= |rest| then Some(rest[used..used + n]) else None
  }

  // the scope, its length and what follows it, which must not be empty
  function ParseScopedPrefix(full: Key): Option<(Scope, nat, Key)> {
    if |full| < 3 || full[0] != 0 || Decode(full[1..]).None? then None
    else
      DecodeBounds(full[1..]);
      var (ns, c1) := Decode(full[1..]).value;
      if Decode(full[1 + c1..]).None? then None
      else
        DecodeBounds(full[1 + c1..]);
        var (db, c2) := Decode(full[1 + c1..]).value;
        var n := 1 + c1 + c2;
        if |full| > n then Some((Scope(ns, db), n, full[n..])) else None
  }

  // The same key in another scope.
  function TransformKey(s: Scope, full: Key, target: Scope): Option<Key> {
    if IsKeyInScope(s, full) then Some(ScopePrefix(target) + full[|ScopePrefix(s)|..]) else None
  }

  // ---------- scopes are apart ----------

  // No scope's prefix is a prefix of another scope's keys.
  lemma ScopesApart(s: Scope, t: Scope, x: Key)
    requires ScopePrefix(s) <= ScopePrefix(t) + x
    ensures s == t
  {
    if s != t {
      PairOrderIff([0], s.ns, s.db, t.ns, t.db, [], x);
    }
  }

  // A key starts with the prefix of at most one scope.
  lemma OneScope(s: Scope, t: Scope, full: Key)
    requires ScopePrefix(s) <= full && ScopePrefix(t) <= full
    ensures s == t
  {
    var p, q := ScopePrefix(s), ScopePrefix(t);
    if |p| <= |q| {
      assert p == full[..|p|] == q[..|p|];
      assert p <= q + [];
      ScopesApart(s, t, []);
    } else {
      assert q == full[..|q|] == p[..|q|];
      assert q <= p + [];
      ScopesApart(t, s, []);
    }
  }

  // A namespace's prefix is a prefix of exactly its own scopes.
  lemma NsPrefixIff(ns: u64, s: Scope, x: Key)
    ensures NsPrefix(ns) <= ScopePrefix(s) + x <==> ns == s.ns
  {
    var tail := Oppv(s.db) + x;
    assert ScopePrefix(s) + x == [0] + (Oppv(s.ns) + tail);
    PrefixStep(0, Oppv(ns), Oppv(s.ns) + tail);
    if ns != s.ns {
      OppvOrderIff(ns, s.ns, [], tail);
    }
  }

  lemma PrefixStep(b: byte, p: Key, k: Key)
    ensures [b] + p <= [b] + k <==> p <= k
  {
    PrefixCons([b] + p, [b] + k);
    assert ([b] + p)[1..] == p && ([b] + k)[1..] == k;
  }

  lemma PrefixDrop(h: Key, p: Key, k: Key)
    ensures h + p <= h + k <==> p <= k
    decreases |h|
  {
    if h == [] {
      assert h + p == p && h + k == k;
    } else {
      PrefixDrop(h[1..], p, k);
      assert h + p == [h[0]] + (h[1..] + p) && h + k == [h[0]] + (h[1..] + k);
      PrefixStep(h[0], h[1..] + p, h[1..] + k);
    }
  }

  // Catalog keys: a namespace's prefix is a prefix of exactly its own entries.
  lemma CatalogPrefixIff(ns: u64, ns': u64, db: u64)
    ensures CatalogNsPrefix(ns) <= CatalogDbKey(ns', db) <==> ns == ns'
  {
    PrefixDrop(CATALOG_PREFIX, Oppv(ns), Pair(ns', db));
    if ns != ns' {
      OppvOrderIff(ns, ns', [], Oppv(db));
    }
  }

  lemma CatalogKeysInjective(a: u64, b: u64, c: u64, d: u64)
    requires CatalogDbKey(a, b) == CatalogDbKey(c, d)
    ensures a == c && b == d
  {
    CatalogOrderIff(a, b, c, d);
    CatalogOrderIff(c, d, a, b);
    BelowIrreflexive(CatalogDbKey(a, b));
  }

  // Catalog keys are ordered by namespace, then database.
  lemma CatalogOrderIff(a: u64, b: u64, c: u64, d: u64)
    ensures Below(CatalogDbKey(a, b), CatalogDbKey(c, d)) <==> a < c || (a == c && b < d)
  {
    if (a, b) == (c, d) {
      BelowIrreflexive(CatalogDbKey(a, b));
    } else {
      PairOrderIff(CATALOG_PREFIX, a, b, c, d, [], []);
      assert CATALOG_PREFIX + Pair(a, b) + [] == CatalogDbKey(a, b);
      assert CATALOG_PREFIX + Pair(c, d) + [] == CatalogDbKey(c, d);
    }
  }

  // ---------- extraction undoes composition ----------

  lemma ScopeParts(s: Scope, rest: Key, full: Key)
    requires full == ScopePrefix(s) + rest
    ensures ScopePrefix(s) <= full && full[|ScopePrefix(s)|..] == rest
  {
  }

  lemma ExtractMeta(s: Scope, t: byte, key: Key)
    requires IsTag(t) && !IsDataTag(t)
    ensures ExtractUserKey(s, MetaKey(s, [t], key)) == Some(key)
  {
    var p := ScopePrefix(s);
    assert MetaKey(s, [t], key)[|p| + 1..] == key;
  }

  lemma ExtractSub(s: Scope, t: byte, key: Key, sub: Key)
    requires IsTag(t) && IsDataTag(t) && |key| < 0x1_0000_0000_0000_0000
    ensures ExtractUserKey(s, SubKey(s, [t], key, sub)) == Some(key)
  {
    SubIsMeta(s, t, key, sub);
    TaggedParts(s, t, Oppv(|key|) + (key + sub), SubKey(s, [t], key, sub));
    Framed(key, sub);
  }

  lemma Framed(key: Key, sub: Key)
    requires |key| < 0x1_0000_0000_0000_0000
    ensures ExtractFramed(Oppv(|key|) + (key + sub)) == Some(key)
  {
    DecodeEncode(|key|, key + sub);
    var rest := Oppv(|key|) + (key + sub);
    assert rest[OppvLen(|key|)..OppvLen(|key|) + |key|] == key;
  }

  // ---------- composition is injective ----------

  lemma MetaKeyInjective(s: Scope, t: byte, k: Key, s': Scope, t': byte, k': Key)
    requires MetaKey(s, [t], k) == MetaKey(s', [t'], k')
    ensures s == s' && t == t' && k == k'
  {
    var full := MetaKey(s, [t], k);
    TaggedParts(s, t, k, full);
    TaggedParts(s', t', k', full);
    OneScope(s, s', full);
  }

  lemma TaggedParts(s: Scope, t: byte, k: Key, full: Key)
    requires full == MetaKey(s, [t], k)
    ensures ScopePrefix(s) <= full
    ensures var n := |ScopePrefix(s)|; |full| > n && full[n] == t && full[n + 1..] == k
  {
  }

  lemma SubKeyInjective(s: Scope, t: byte, k: Key, sub: Key, s': Scope, t': byte, k': Key, sub': Key)
    requires |k| < 0x1_0000_0000_0000_0000 && |k'| < 0x1_0000_0000_0000_0000
    requires SubKey(s, [t], k, sub) == SubKey(s', [t'], k', sub')
    ensures s == s' && t == t' && k == k' && sub == sub'
  {
    SubIsMeta(s, t, k, sub);
    SubIsMeta(s', t', k', sub');
    MetaKeyInjective(s, t, Oppv(|k|) + (k + sub), s', t', Oppv(|k'|) + (k' + sub'));
    FrameInjective(k, sub, k', sub');
  }

  lemma SubIsMeta(s: Scope, t: byte, k: Key, sub: Key)
    requires |k| < 0x1_0000_0000_0000_0000
    ensures SubKey(s, [t], k, sub) == MetaKey(s, [t], Oppv(|k|) + (k + sub))
  {
  }

  lemma FrameInjective(k: Key, sub: Key, k': Key, sub': Key)
    requires |k| < 0x1_0000_0000_0000_0000 && |k'| < 0x1_0000_0000_0000_0000
    requires Oppv(|k|) + (k + sub) == Oppv(|k'|) + (k' + sub')
    ensures k == k' && sub == sub'
  {
    Framed(k, sub);
    Framed(k', sub');
    var n := OppvLen(|k|) + |k|;
    assert (Oppv(|k|) + (k + sub))[n..] == sub && (Oppv(|k'|) + (k' + sub'))[n..] == sub';
  }

  // A metadata key and a subkey coincide if and only if scope and tag agree and the user
  // key of the one is the framed key and subkey of the other.
  lemma MetaIsSubIff(s: Scope, t: byte, k: Key, s': Scope, t': byte, k': Key, sub: Key)
    requires |k'| < 0x1_0000_0000_0000_0000
    ensures MetaKey(s, [t], k) == SubKey(s', [t'], k', sub)
      <==> s == s' && t == t' && k == Oppv(|k'|) + (k' + sub)
  {
    SubIsMeta(s', t', k', sub);
    if MetaKey(s, [t], k) == SubKey(s', [t'], k', sub) {
      MetaKeyInjective(s, t, k, s', t', Oppv(|k'|) + (k' + sub));
    }
  }

  // They never do when only the one has a tag of subkeys.
  lemma TagsKeepApart(s: Scope, t: byte, k: Key, s': Scope, t': byte, k': Key, sub: Key)
    requires |k'| < 0x1_0000_0000_0000_0000 && !IsDataTag(t) && IsDataTag(t')
    ensures MetaKey(s, [t], k) != SubKey(s', [t'], k', sub)
  {
    MetaIsSubIff(s, t, k, s', t', k', sub);
  }

  // ---------- moving keys between scopes ----------

  lemma TransformIff(s: Scope, full: Key, target: Scope)
    ensures TransformKey(s, full, target).Some? <==> IsKeyInScope(s, full)
    ensures IsKeyInScope(s, full) ==> IsKeyInScope(target, TransformKey(s, full, target).value)
  {
    if IsKeyInScope(s, full) {
      var rest := full[|ScopePrefix(s)|..];
      ScopeParts(target, rest, ScopePrefix(target) + rest);
      assert (ScopePrefix(target) + rest)[|ScopePrefix(target)|] == rest[0];
    }
  }

  // There and back is the identity.
  lemma TransformRoundTrip(s: Scope, full: Key, target: Scope)
    requires IsKeyInScope(s, full)
    ensures TransformKey(s, full, target).Some?
    ensures TransformKey(target, TransformKey(s, full, target).value, s) == Some(full)
  {
    TransformIff(s, full, target);
    var rest := full[|ScopePrefix(s)|..];
    ScopeParts(target, rest, ScopePrefix(target) + rest);
    assert full == ScopePrefix(s) + rest;
  }

  // A moved key holds the same user key.
  lemma TransformKeepsUserKey(s: Scope, full: Key, target: Scope)
    requires IsKeyInScope(s, full)
    ensures TransformKey(s, full, target).Some?
    ensures ExtractUserKey(target, TransformKey(s, full, target).value) == ExtractUserKey(s, full)
  {
    TransformIff(s, full, target);
    var p, q := ScopePrefix(s), ScopePrefix(target);
    var rest := full[|p|..];
    var moved := q + rest;
    assert moved[|q|] == full[|p|] && moved[|q| + 1..] == rest[1..] == full[|p| + 1..];
  }

  // ---------- parsing scopes ----------

  lemma ParseScope(s: Scope, rest: Key)
    requires rest != []
    ensures ParseScopedPrefix(ScopePrefix(s) + rest) == Some((s, |ScopePrefix(s)|, rest))
  {
    var full := ScopePrefix(s) + rest;
    var tail := Oppv(s.db) + rest;
    assert full[1..] == Oppv(s.ns) + tail;
    DecodeEncode(s.ns, tail);
    assert full[1 + OppvLen(s.ns)..] == tail;
    DecodeEncode(s.db, rest);
    assert full[|ScopePrefix(s)|..] == rest;
  }

  // What parses need not be a key of the scope it parses to: it is one exactly when
  // the prefix is as long as the scope's own.
  lemma ParsedScopeIff(full: Key)
    requires ParseScopedPrefix(full).Some?
    ensures var (s, n, rest) := ParseScopedPrefix(full).value;
      ScopePrefix(s) <= full <==> n == |ScopePrefix(s)|
  {
    var (s, n, rest) := ParseScopedPrefix(full).value;
    if ScopePrefix(s) <= full {
      var tail := full[|ScopePrefix(s)|..];
      assert full == ScopePrefix(s) + tail;
      if tail != [] {
        ParseScope(s, tail);
      } else {
        LongerParse(full, s);
      }
    } else if n == |ScopePrefix(s)| {
      PrefixIsCanonical(full);
    }
  }

  lemma LongerParse(full: Key, s: Scope)
    requires full == ScopePrefix(s)
    ensures ParseScopedPrefix(full).None?
  {
    assert full[1..] == Oppv(s.ns) + Oppv(s.db);
    DecodeEncode(s.ns, Oppv(s.db));
    assert full[1 + OppvLen(s.ns)..] == Oppv(s.db) + [];
    DecodeEncode(s.db, []);
  }

  lemma PrefixIsCanonical(full: Key)
    requires ParseScopedPrefix(full).Some?
    requires var (s, n, rest) := ParseScopedPrefix(full).value; n == |ScopePrefix(s)|
    ensures var (s, n, rest) := ParseScopedPrefix(full).value; ScopePrefix(s) <= full
  {
    DecodeBounds(full[1..]);
    var (ns, c1) := Decode(full[1..]).value;
    CodeAtLeast(full[1..]);
    CodeAtLeast(full[1 + c1..]);
    TwoCodes(full, c1);
  }

  // Two codes of the right length behind a zero byte.
  lemma TwoCodes(full: Key, c1: nat)
    requires full != [] && full[0] == 0 && 1 + c1 <= |full|
    requires Decode(full[1..]).Some? && c1 == Decode(full[1..]).value.1 && Decode(full[1 + c1..]).Some?
    ensures var (ns, db, c2) := (Decode(full[1..]).value.0, Decode(full[1 + c1..]).value.0, Decode(full[1 + c1..]).value.1);
      && ns < 0x1_0000_0000_0000_0000 && db < 0x1_0000_0000_0000_0000
      && (c1 == OppvLen(ns) && c2 == OppvLen(db) ==> ScopePrefix(Scope(ns, db)) <= full)
  {
    CanonicalIff(full[1..]);
    CanonicalIff(full[1 + c1..]);
    var c2 := Decode(full[1 + c1..]).value.1;
    FirstParts(full, c1, c2);
  }

  lemma FirstParts(full: Key, m: nat, n: nat)
    requires full != [] && full[0] == 0 && 1 + m + n <= |full|
    ensures full[..1 + m + n] == [0] + (full[1..][..m] + full[1 + m..][..n])
  {
  }

  // No code of a number is shorter than its own.
  lemma CodeAtLeast(s: Key)
    requires Decode(s).Some?
    ensures Decode(s).value.0 < 0x1_0000_0000_0000_0000
    ensures Decode(s).value.1 >= OppvLen(Decode(s).value.0)
  {
    DecodeBounds(s);
    var (v, n) := Decode(s).value;
    if n < 9 {
      var plain := [s[0] % Room(n)] + s[1..n];
      BeValBound(s[1..n]);
      BeOfVal(plain);
      BeValBound(plain);
      BeFirst(v, n, Room(n));
      assert Pow256(0) == 1 && Pow256(1) == 256 && Pow256(2) == 0x1_0000 && Pow256(3) == 0x100_0000;
    }
  }
}
