/** Byte strings in lexicographic order, as the storage engine sorts its keys. */
module Bytes {
  import opened Words

  type Key = seq<byte>

  // strictly below in lexicographic order; a proper prefix is below
  predicate Below(a: Key, b: Key) {
    b != [] && (a == [] || a[0] < b[0] || (a[0] == b[0] && Below(a[1..], b[1..])))
  }

  predicate AtMost(a: Key, b: Key) {
    a == b || Below(a, b)
  }

  // Different at some byte that both have, and smaller there: whatever follows, the
  // first stays below the second.
  predicate Before(a: Key, b: Key) {
    a != [] && b != [] && (a[0] < b[0] || (a[0] == b[0] && Before(a[1..], b[1..])))
  }

  lemma PrefixCons(p: Key, a: Key)
    requires p != [] && a != []
    ensures p <= a <==> p[0] == a[0] && p[1..] <= a[1..]
  {
    if p[0] == a[0] && p[1..] <= a[1..] {
      assert p == [p[0]] + p[1..] && a == [a[0]] + a[1..];
    }
  }

  lemma {:induction false} BelowIrreflexive(a: Key)
    ensures !Below(a, a)
  {
    if a != [] {
      BelowIrreflexive(a[1..]);
    }
  }

  lemma {:induction false} BelowTransitive(a: Key, b: Key, c: Key)
    requires Below(a, b) && Below(b, c)
    ensures Below(a, c)
  {
    if a != [] && a[0] == b[0] == c[0] {
      BelowTransitive(a[1..], b[1..], c[1..]);
    }
  }

  lemma {:induction false} BelowTotal(a: Key, b: Key)
    ensures a == b || Below(a, b) || Below(b, a)
    ensures !(Below(a, b) && Below(b, a))
  {
    if a != [] && b != [] {
      BelowTotal(a[1..], b[1..]);
      if a[0] == b[0] && a[1..] == b[1..] {
        assert a == [a[0]] + a[1..] && b == [b[0]] + b[1..];
      }
    }
  }

  lemma {:induction false} BeforeIsBelow(a: Key, b: Key, x: Key, y: Key)
    requires Before(a, b)
    ensures Below(a + x, b + y)
    ensures !(a <= b + y) && !(b <= a + x)
  {
    if a[0] == b[0] {
      BeforeIsBelow(a[1..], b[1..], x, y);
      assert (a + x)[1..] == a[1..] + x && (b + y)[1..] == b[1..] + y;
    }
    PrefixCons(a, b + y);
    PrefixCons(b, a + x);
  }

  lemma {:induction false} BeforeConcat(p: Key, a: Key, b: Key)
    requires Before(a, b)
    ensures Before(p + a, p + b)
  {
    if p == [] {
      assert p + a == a && p + b == b;
    } else {
      BeforeConcat(p[1..], a, b);
      assert (p + a)[1..] == p[1..] + a && (p + b)[1..] == p[1..] + b;
    }
  }

  lemma BeforeExtends(a: Key, b: Key, x: Key, y: Key)
    requires Before(a, b)
    ensures Before(a + x, b + y)
    decreases |a|
  {
    if a[0] == b[0] {
      BeforeExtends(a[1..], b[1..], x, y);
      assert (a + x)[1..] == a[1..] + x && (b + y)[1..] == b[1..] + y;
    }
  }

  lemma {:induction false} PrefixAtMost(p: Key, k: Key)
    requires p <= k
    ensures AtMost(p, k)
  {
    if p == [] {
      assert k == [] || Below(p, k);
    } else {
      PrefixAtMost(p[1..], k[1..]);
      assert p == [p[0]] + p[1..] && k == [k[0]] + k[1..];
    }
  }

  // Keys at or above a prefix that do not start with it are above all that do.
  lemma {:induction false} PastPrefix(p: Key, a: Key, b: Key)
    requires AtMost(p, a) && !(p <= a) && AtMost(a, b)
    ensures !(p <= b)
  {
    if a != b && b != [] {
      PrefixCons(p, b);
      if a != [] {
        PrefixCons(p, a);
        if a[0] == b[0] == p[0] {
          assert p == [p[0]] + p[1..] && a == [a[0]] + a[1..];
          PastPrefix(p[1..], a[1..], b[1..]);
        }
      }
    }
  }
}
