/**
 The growable byte vector the encoder writes to: a buffer whose first `len` bytes
 are in use, with spare capacity behind them that packers write to directly.
 */
module Buffers {
  import opened Words

  class ByteVec {
    var buf: array<byte>
    var len: nat

    ghost predicate Valid()
      reads this
    {
      len <= buf.Length
    }

    ghost function Bytes(): (s: seq<byte>)
      requires Valid()
      reads this, buf
      ensures |s| == len
    {
      buf[..len]
    }

    constructor ()
      ensures Valid() && Bytes() == [] && fresh(buf)
    {
      buf := new byte[0];
      len := 0;
    }

    // Makes room for `extra` more bytes; the bytes in use do not change.
    method Reserve(extra: nat)
      requires Valid()
      modifies this
      ensures Valid() && Bytes() == old(Bytes()) && len == old(len)
      ensures buf.Length >= len + extra
      ensures buf == old(buf) || fresh(buf)
    {
      if buf.Length < len + extra {
        var bigger := new byte[len + extra];
        forall i | 0 <= i < len {
          bigger[i] := buf[i];
        }
        buf := bigger;
      }
    }

    // Declares the next `extra` bytes of spare capacity to be in use.
    method Grow(extra: nat)
      requires Valid() && len + extra <= buf.Length
      modifies this`len
      ensures Valid() && len == old(len) + extra
      ensures Bytes() == old(Bytes()) + buf[old(len)..old(len) + extra]
    {
      len := len + extra;
    }

    method ExtendFromSlice(s: seq<byte>)
      requires Valid()
      modifies this, buf
      ensures Valid() && (buf == old(buf) || fresh(buf))
      ensures Bytes() == old(Bytes()) + s
    {
      ghost var before := Bytes();
      Reserve(|s|);
      assert forall i :: 0 <= i < len ==> buf[i] == before[i];
      forall i | 0 <= i < |s| {
        buf[len + i] := s[i];
      }
      assert forall i :: 0 <= i < len ==> buf[i] == before[i];
      assert buf[..len] == before;
      assert buf[len..len + |s|] == s;
      Grow(|s|);
    }

    method Push(b: byte)
      requires Valid()
      modifies this, buf
      ensures Valid() && (buf == old(buf) || fresh(buf))
      ensures Bytes() == old(Bytes()) + [b]
    {
      ExtendFromSlice([b]);
    }

    method Truncate(n: nat)
      requires Valid() && n <= len
      modifies this`len
      ensures Valid() && Bytes() == old(Bytes())[..n]
    {
      len := n;
    }
  }

  // write_unaligned of the low n bytes of a word, little end first
  method Store(a: array<byte>, p: nat, v: nat, n: nat)
    requires p + n <= a.Length
    modifies a
    ensures a[..] == old(a[..p]) + LeBytes(v, n) + old(a[p + n..])
  {
    var bytes := LeBytes(v, n);
    forall i | 0 <= i < n {
      a[p + i] := bytes[i];
    }
  }
}
