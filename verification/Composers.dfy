/**
 The key builders: a key that stays in 55 inline bytes while it fits, the composers
 that write keys piece by piece, and the reusable subkey composer. Every way of
 building a key gives the bytes the functions of `Keys` say.
 */
module Composers {
  import opened Words
  import opened Buffers
  import opened Bytes
  import opened Varint
  import opened Keys

  const INLINE_CAP: nat := 55
  const MAX_SCOPE_PREFIX: nat := 19

  class SmallKey {
    var inline: bool
    const buf: array<byte>
    var len: nat
    var heap: Key

    ghost predicate Valid()
      reads this
    {
      buf.Length == INLINE_CAP && len <= INLINE_CAP
    }

    ghost function Contents(): Key
      requires Valid()
      reads this, buf
    {
      if inline then buf[..len] else heap
    }

    constructor ()
      ensures Valid() && Contents() == [] && inline && fresh(buf)
    {
      inline, len, heap := true, 0, [];
      buf := new byte[INLINE_CAP](_ => 0);
    }

    // Takes over a filled inline buffer.
    constructor Inline(buf: array<byte>, len: nat)
      requires buf.Length == INLINE_CAP && len <= INLINE_CAP
      ensures Valid() && inline && this.buf == buf && Contents() == buf[..len]
    {
      inline, this.buf, this.len, heap := true, buf, len, [];
    }

    constructor Heap(v: Key)
      ensures Valid() && !inline && Contents() == v && fresh(buf)
    {
      inline, len, heap := false, 0, v;
      buf := new byte[INLINE_CAP](_ => 0);
    }

    method Push(b: byte)
      requires Valid()
      modifies this, buf
      ensures Valid() && Contents() == old(Contents()) + [b]
      ensures inline <==> old(inline) && old(len) < INLINE_CAP
    {
      if inline {
        if len < INLINE_CAP {
          buf[len] := b;
          len := len + 1;
        } else {
          heap, inline := buf[..len] + [b], false;
        }
      } else {
        heap := heap + [b];
      }
    }

    method ExtendFromSlice(s: Key)
      requires Valid()
      modifies this, buf
      ensures Valid() && Contents() == old(Contents()) + s
      ensures inline <==> old(inline) && |old(Contents()) + s| <= INLINE_CAP
    {
      if !inline {
        heap := heap + s;
      } else if len + |s| <= INLINE_CAP {
        PutAt(buf, len, s);
        len := len + |s|;
      } else {
        heap, inline := buf[..len] + s, false;
      }
    }

    method Clear()
      requires Valid()
      modifies this
      ensures Valid() && Contents() == [] && inline == old(inline)
    {
      if inline {
        len := 0;
      } else {
        heap := [];
      }
    }
  }

  // Copies s into the buffer behind the first `at` bytes.
  method PutAt(buf: array<byte>, at: nat, s: Key)
    requires at + |s| <= buf.Length
    modifies buf
    ensures buf[..at + |s|] == old(buf[..at]) + s
  {
    forall i | 0 <= i < |s| {
      buf[at + i] := s[i];
    }
    assert buf[at..at + |s|] == s;
    assert forall i :: 0 <= i < at ==> buf[i] == old(buf[i]);
    assert buf[..at + |s|] == buf[..at] + buf[at..at + |s|];
  }

  method PutOppv(buf: array<byte>, at: nat, v: u64) returns (n: nat)
    requires at + OppvLen(v) <= buf.Length
    modifies buf
    ensures n == OppvLen(v) && buf[..at + n] == old(buf[..at]) + Oppv(v)
  {
    n := EncodeOppvSlice(v, buf, at);
    assert buf[..at + n] == buf[..at] + buf[at..at + n];
  }

  // the scope's code at the start of a buffer
  method PutScope(buf: array<byte>, s: Scope) returns (n: nat)
    requires buf.Length >= |ScopePrefix(s)|
    modifies buf
    ensures n == |ScopePrefix(s)| && buf[..n] == ScopePrefix(s)
  {
    buf[0] := 0;
    assert buf[..1] == [0];
    var n1 := PutOppv(buf, 1, s.ns);
    var n2 := PutOppv(buf, 1 + n1, s.db);
    n := 1 + n1 + n2;
    assert [0] + Oppv(s.ns) + Oppv(s.db) == ScopePrefix(s);
  }

  predicate IsDefault(s: Scope) { s == Scope(0, 0) }

  lemma DefaultPrefix()
    ensures ScopePrefix(Scope(0, 0)) == [0, 0, 0]
  {
    assert BeBytes(0, 1) == BeBytes(0, 0) + [0];
    assert Oppv(0) == [0];
  }

  lemma ShortLength(n: u64)
    requires n < 0x80
    ensures Oppv(n) == [n]
  {
    assert BeBytes(n, 1) == BeBytes(n / 256, 0) + [n];
  }

  function Concat(parts: seq<Key>): Key {
    if parts == [] then [] else parts[0] + Concat(parts[1..])
  }

  // Empties the buffer and fills it with the pieces.
  method Refill(dst: ByteVec, parts: seq<Key>)
    requires dst.Valid()
    modifies dst, dst.buf
    ensures dst.Valid() && dst.Bytes() == Concat(parts)
  {
    dst.Truncate(0);
    Append(dst, parts);
    assert [] + Concat(parts) == Concat(parts);
  }

  method Append(dst: ByteVec, parts: seq<Key>)
    requires dst.Valid()
    modifies dst, dst.buf
    ensures dst.Valid() && dst.Bytes() == old(dst.Bytes()) + Concat(parts)
    decreases |parts|
  {
    ghost var before := dst.Bytes();
    if parts != [] {
      dst.ExtendFromSlice(parts[0]);
      Append(dst, parts[1..]);
      assert before + parts[0] + Concat(parts[1..]) == before + (parts[0] + Concat(parts[1..]));
    }
  }

  lemma TwoParts(a: Key, b: Key)
    ensures Concat([a, b]) == a + b
  {
    assert Concat([b]) == b + Concat([]);
    assert [a, b][1..] == [b];
  }

  lemma ThreeParts(a: Key, b: Key, c: Key)
    ensures Concat([a, b, c]) == a + b + c
  {
    TwoParts(b, c);
    assert [a, b, c][1..] == [b, c];
  }

  lemma FourParts(a: Key, b: Key, c: Key, d: Key)
    ensures Concat([a, b, c, d]) == a + b + c + d
  {
    ThreeParts(b, c, d);
    assert [a, b, c, d][1..] == [b, c, d];
  }

  // The default scope's shortcuts write the same bytes.
  lemma DefaultMeta(tag: Key, key: Key)
    requires |tag| == 1
    ensures [0, 0, 0, tag[0]] + key == MetaKey(Scope(0, 0), tag, key)
  {
    DefaultPrefix();
    assert [0, 0, 0, tag[0]] == [0, 0, 0] + tag;
  }

  lemma DefaultSub(tag: Key, key: Key)
    requires |tag| == 1 && |key| < 128
    ensures [0, 0, 0, tag[0], |key|] + key == SubPrefix(Scope(0, 0), tag, key)
  {
    DefaultPrefix();
    ShortLength(|key|);
    assert [0, 0, 0, tag[0], |key|] == [0, 0, 0] + tag + [|key|];
  }

  // ---------- metadata keys ----------

  method ComposeMetaKeyInto(s: Scope, tag: Key, key: Key, dst: ByteVec)
    requires dst.Valid()
    modifies dst, dst.buf
    ensures dst.Valid() && dst.Bytes() == MetaKey(s, tag, key)
  {
    if IsDefault(s) && |tag| == 1 {
      DefaultMeta(tag, key);
      TwoParts([0, 0, 0, tag[0]], key);
      Refill(dst, [[0, 0, 0, tag[0]], key]);
    } else {
      ThreeParts(ScopePrefix(s), tag, key);
      Refill(dst, [ScopePrefix(s), tag, key]);
    }
  }

  // On the stack when the key has at most 55 bytes.
  method ComposeMetaKeyStack(s: Scope, tag: Key, key: Key) returns (r: SmallKey)
    ensures r.Valid() && r.Contents() == MetaKey(s, tag, key)
    ensures r.inline <==> |MetaKey(s, tag, key)| <= INLINE_CAP
  {
    if IsDefault(s) && |tag| == 1 && 4 + |key| <= INLINE_CAP {
      var buf := new byte[INLINE_CAP](_ => 0);
      DefaultMeta(tag, key);
      PutAt(buf, 0, [0, 0, 0, tag[0]]);
      PutAt(buf, 4, key);
      r := new SmallKey.Inline(buf, 4 + |key|);
      return;
    }
    var total := |ScopePrefix(s)| + |tag| + |key|;
    if total <= INLINE_CAP {
      var buf := new byte[INLINE_CAP](_ => 0);
      var n := PutScope(buf, s);
      PutAt(buf, n, tag);
      PutAt(buf, n + |tag|, key);
      r := new SmallKey.Inline(buf, total);
    } else {
      r := new SmallKey.Heap(ScopePrefix(s) + tag + key);
    }
  }

  // ---------- subkeys ----------

  // the framed key and any number of pieces behind it
  function FramedKey(s: Scope, tag: Key, key: Key, extra: seq<Key>): Key
    requires |key| < 0x1_0000_0000_0000_0000
  {
    SubPrefix(s, tag, key) + Concat(extra)
  }

  method ComposePrefixInto(s: Scope, tag: Key, key: Key, dst: ByteVec)
    requires dst.Valid() && |key| < 0x1_0000_0000_0000_0000
    modifies dst, dst.buf
    ensures dst.Valid() && dst.Bytes() == SubPrefix(s, tag, key)
  {
    if IsDefault(s) && |tag| == 1 && |key| < 128 {
      DefaultSub(tag, key);
      TwoParts([0, 0, 0, tag[0], |key|], key);
      Refill(dst, [[0, 0, 0, tag[0], |key|], key]);
    } else {
      FourParts(ScopePrefix(s), tag, Oppv(|key|), key);
      Refill(dst, [ScopePrefix(s), tag, Oppv(|key|), key]);
    }
  }

  // Writes the pieces behind the first `at` bytes.
  method PutAll(buf: array<byte>, at: nat, parts: seq<Key>) returns (end: nat)
    requires at + |Concat(parts)| <= buf.Length
    modifies buf
    ensures end == at + |Concat(parts)| && buf[..end] == old(buf[..at]) + Concat(parts)
    decreases |parts|
  {
    ghost var before := buf[..at];
    if parts == [] {
      assert before + [] == before;
      return at;
    }
    PutAt(buf, at, parts[0]);
    end := PutAll(buf, at + |parts[0]|, parts[1..]);
    assert before + parts[0] + Concat(parts[1..]) == before + (parts[0] + Concat(parts[1..]));
  }

  // Three ways to build the key: default scope inline, any scope inline, heap.
  method TryComposeStackKey(s: Scope, tag: Key, key: Key, extra: seq<Key>) returns (r: SmallKey)
    requires |key| < 0x1_0000_0000_0000_0000
    ensures r.Valid() && r.Contents() == FramedKey(s, tag, key, extra)
    ensures r.inline <==> |FramedKey(s, tag, key, extra)| <= INLINE_CAP
  {
    if IsDefault(s) && |tag| == 1 && |key| < 128 {
      DefaultSub(tag, key);
      if 5 + |key| + |Concat(extra)| <= INLINE_CAP {
        r := InlineDefault(tag, key, extra);
        return;
      }
    } else if |ScopePrefix(s)| + |tag| + OppvLen(|key|) + |key| + |Concat(extra)| <= INLINE_CAP {
      r := InlineScoped(s, tag, key, extra);
      return;
    }
    r := new SmallKey.Heap(ScopePrefix(s) + tag + Oppv(|key|) + key + Concat(extra));
  }

  method InlineDefault(tag: Key, key: Key, extra: seq<Key>) returns (r: SmallKey)
    requires |tag| == 1 && |key| < 128 && 5 + |key| + |Concat(extra)| <= INLINE_CAP
    ensures r.Valid() && r.inline && r.Contents() == FramedKey(Scope(0, 0), tag, key, extra)
  {
    DefaultSub(tag, key);
    var buf := new byte[INLINE_CAP](_ => 0);
    var head := [0, 0, 0, tag[0], |key|];
    PutAt(buf, 0, head);
    PutAt(buf, 5, key);
    assert buf[..5 + |key|] == head + key;
    var end := PutAll(buf, 5 + |key|, extra);
    r := new SmallKey.Inline(buf, end);
  }

  method InlineScoped(s: Scope, tag: Key, key: Key, extra: seq<Key>) returns (r: SmallKey)
    requires |key| < 0x1_0000_0000_0000_0000 && |FramedKey(s, tag, key, extra)| <= INLINE_CAP
    ensures r.Valid() && r.inline && r.Contents() == FramedKey(s, tag, key, extra)
  {
    var buf := new byte[INLINE_CAP](_ => 0);
    var m := PutSubPrefix(buf, s, tag, key);
    var end := PutAll(buf, m, extra);
    r := new SmallKey.Inline(buf, end);
  }

  method PutSubPrefix(buf: array<byte>, s: Scope, tag: Key, key: Key) returns (end: nat)
    requires |key| < 0x1_0000_0000_0000_0000 && |SubPrefix(s, tag, key)| <= buf.Length
    modifies buf
    ensures end == |SubPrefix(s, tag, key)| && buf[..end] == SubPrefix(s, tag, key)
  {
    var n := PutScope(buf, s);
    PutAt(buf, n, tag);
    end := PutFramed(buf, n + |tag|, key);
  }

  // The length of a piece, then the piece.
  method PutFramed(buf: array<byte>, at: nat, key: Key) returns (end: nat)
    requires |key| < 0x1_0000_0000_0000_0000 && at + OppvLen(|key|) + |key| <= buf.Length
    modifies buf
    ensures end == at + OppvLen(|key|) + |key| && buf[..end] == old(buf[..at]) + Oppv(|key|) + key
  {
    var n := PutOppv(buf, at, |key|);
    PutAt(buf, at + n, key);
    end := at + n + |key|;
  }

  method ComposeSubkeyStack(s: Scope, tag: Key, key: Key, sub: Key) returns (r: SmallKey)
    requires |key| < 0x1_0000_0000_0000_0000
    ensures r.Valid() && r.Contents() == SubKey(s, tag, key, sub)
  {
    r := TryComposeStackKey(s, tag, key, [sub]);
    assert Concat([sub]) == sub + Concat([]);
  }

  // A key whose middle part is framed too.
  method ComposeOppvSubkeyStack(s: Scope, tag: Key, key: Key, mid: Key, sub: Key) returns (r: SmallKey)
    requires |key| < 0x1_0000_0000_0000_0000 && |mid| < 0x1_0000_0000_0000_0000
    ensures r.Valid() && r.Contents() == SubKey(s, tag, key, Oppv(|mid|) + mid + sub)
    ensures r.inline <==> |SubKey(s, tag, key, Oppv(|mid|) + mid + sub)| <= INLINE_CAP
  {
    var extra := [Oppv(|mid|), mid, sub];
    ThreeParts(Oppv(|mid|), mid, sub);
    if |SubPrefix(s, tag, key)| + OppvLen(|mid|) + |mid| + |sub| <= INLINE_CAP {
      r := InlineScoped(s, tag, key, extra);
    } else {
      Regroup(SubPrefix(s, tag, key), Oppv(|mid|), mid, sub);
      r := new SmallKey.Heap(ScopePrefix(s) + tag + Oppv(|key|) + key + Oppv(|mid|) + mid + sub);
    }
  }

  lemma Regroup(p: Key, a: Key, b: Key, c: Key)
    ensures p + a + b + c == p + (a + b + c)
  {
  }

  // Reused for many subkeys of one key.
  class SubkeyComposer {
    const buf: ByteVec
    const prefixLen: nat

    ghost predicate Valid()
      reads this, buf
    {
      buf.Valid() && prefixLen <= buf.len
    }

    ghost function Prefix(): Key
      requires Valid()
      reads this, buf, buf.buf
    {
      buf.Bytes()[..prefixLen]
    }

    constructor (prefix: Key)
      ensures Valid() && Prefix() == prefix && fresh(buf) && fresh(buf.buf)
    {
      var v := new ByteVec();
      v.ExtendFromSlice(prefix);
      buf, prefixLen := v, |prefix|;
    }

    // What an earlier call composed leaves no trace.
    method ComposeSub(sub: Key)
      requires Valid()
      modifies buf, buf.buf
      ensures Valid() && buf.Bytes() == old(Prefix()) + sub && Prefix() == old(Prefix())
      ensures buf.buf == old(buf.buf) || fresh(buf.buf)
    {
      buf.Truncate(prefixLen);
      buf.ExtendFromSlice(sub);
    }
  }
}
