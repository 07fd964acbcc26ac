/**
 The two float types the codec handles, seen as bit patterns, and the wrapping
 two's-complement integers they are encoded to.
 */
module Floats {
  import opened Words

  // Which implementation of the float trait: f64 with i64, or f32 with i32.
  datatype FloatKind = F64 | F32 {
    // bits of a float and of its integer
    function Bits(): nat { if F64? then 64 else 32 }
    // bytes of a float, of an integer and of a base field
    function Size(): nat { if F64? then 8 else 4 }
    function Modulus(): nat { if F64? then 0x1_0000_0000_0000_0000 else 0x1_0000_0000 }
    function MinInt(): int { -(Modulus() / 2) }
    function MaxInt(): int { Modulus() / 2 - 1 }
    function MaxExponent(): nat { if F64? then 18 else 10 }
    function MaxFac(): nat { if F64? then 8 else 4 }
    // bytes of an exception entry with a u16 and with a u32 position
    function ExcEntrySize(): nat { 2 + Size() }
    function ExcEntrySizeU32(): nat { 4 + Size() }
    function ExceptionPenalty(): nat { ExcEntrySize() * 8 }

    predicate IsInt(x: int) { MinInt() <= x <= MaxInt() }
    predicate IsBits(v: int) { 0 <= v < Modulus() }

    // two's-complement reduction
    function Wrap(x: int): (r: int)
      ensures IsInt(r)
    {
      var m := x % Modulus();
      if m <= MaxInt() then m else m - Modulus()
    }

    function IntSub(a: int, b: int): int { Wrap(a - b) }
    function IntAdd(a: int, b: int): int { Wrap(a + b) }

    // val.wrapping_sub(base) as unsigned
    function IntDiffToU64(val: int, base: int): (r: nat)
      ensures r < Modulus()
    {
      (val - base) % Modulus()
    }

    // (offset as Int).wrapping_add(base)
    function U64ToIntAdd(offset: nat, base: int): int { Wrap(offset + base) }

    function CalcRange(min: int, max: int): nat { (max - min) % Modulus() }
  }

  predicate AllInts(k: FloatKind, xs: seq<int>) {
    forall i :: 0 <= i < |xs| ==> k.IsInt(xs[i])
  }

  predicate AllBits(k: FloatKind, xs: seq<nat>) {
    forall i :: 0 <= i < |xs| ==> k.IsBits(xs[i])
  }

  lemma ModulusIsPow2(k: FloatKind)
    ensures Pow2(k.Bits()) == k.Modulus() && 8 * k.Size() == k.Bits()
  {
    Pow2Of32();
    Pow2Of64();
  }

  lemma WrapIsIdentity(k: FloatKind, x: int)
    requires k.IsInt(x)
    ensures k.Wrap(x) == x
  {
  }

  // Adding multiples of the modulus changes nothing.
  lemma WrapCongruent(k: FloatKind, x: int, c: int)
    ensures k.Wrap(x + c * k.Modulus()) == k.Wrap(x)
  {
    var m := k.Modulus();
    assert (x + c * m) % m == x % m by {
      if k.F64? {
        assert (x + c * 0x1_0000_0000_0000_0000) % 0x1_0000_0000_0000_0000 == x % 0x1_0000_0000_0000_0000;
      } else {
        assert (x + c * 0x1_0000_0000) % 0x1_0000_0000 == x % 0x1_0000_0000;
      }
    }
  }

  // An offset from a base gives the integer back, whatever wrapped on the way.
  lemma OffsetRoundTrip(k: FloatKind, v: int, base: int)
    requires k.IsInt(v)
    ensures k.U64ToIntAdd(k.IntDiffToU64(v, base), base) == v
  {
    var m := k.Modulus();
    var q := (v - base) / m;
    assert k.IntDiffToU64(v, base) + base == v + (-q) * m;
    WrapCongruent(k, v, -q);
    WrapIsIdentity(k, v);
  }

  // Differences and sums undo each other.
  lemma DeltaRoundTrip(k: FloatKind, prev: int, cur: int)
    requires k.IsInt(cur)
    ensures k.IntAdd(prev, k.IntSub(cur, prev)) == cur
  {
    WrapParts(k, cur - prev);
    var q := WrapQuot(k, cur - prev);
    WrapCongruent(k, cur, -q);
    assert prev + k.IntSub(cur, prev) == cur + (-q) * k.Modulus();
    WrapIsIdentity(k, cur);
  }

  function WrapQuot(k: FloatKind, x: int): int {
    if x % k.Modulus() <= k.MaxInt() then x / k.Modulus() else x / k.Modulus() + 1
  }

  lemma WrapParts(k: FloatKind, x: int)
    ensures k.Wrap(x) == x - WrapQuot(k, x) * k.Modulus()
  {
    var m := k.Modulus();
    assert x == x / m * m + x % m;
    assert (x / m + 1) * m == x / m * m + m;
  }

  // Within the range no subtraction wraps.
  lemma OffsetInRange(k: FloatKind, min: int, max: int, v: int)
    requires k.IsInt(min) && k.IsInt(max) && min <= v <= max
    ensures k.IntDiffToU64(v, min) == v - min <= k.CalcRange(min, max) == max - min < k.Modulus()
  {
  }

  // ---------- bit widths ----------

  // 64 - leading_zeros
  function BitsNeeded(x: nat): nat {
    if x == 0 then 0 else 1 + BitsNeeded(x / 2)
  }

  lemma {:induction false} BitsNeededExact(x: nat)
    ensures x < Pow2(BitsNeeded(x))
    ensures x > 0 ==> Pow2(BitsNeeded(x) - 1) <= x
  {
    if x > 0 {
      BitsNeededExact(x / 2);
    }
  }

  // BitsNeeded is the least width that holds the value.
  lemma BitsNeededIff(x: nat, w: nat)
    ensures BitsNeeded(x) <= w <==> x < Pow2(w)
  {
    BitsNeededExact(x);
    if BitsNeeded(x) <= w {
      Pow2Mono(BitsNeeded(x), w);
    } else {
      Pow2Mono(w, BitsNeeded(x) - 1);
    }
  }

  lemma BitsNeededMono(x: nat, y: nat)
    requires x <= y
    ensures BitsNeeded(x) <= BitsNeeded(y)
  {
    BitsNeededExact(y);
    BitsNeededIff(x, BitsNeeded(y));
  }

  lemma BitsNeededInModulus(k: FloatKind, x: nat)
    requires x < k.Modulus()
    ensures BitsNeeded(x) <= k.Bits()
  {
    ModulusIsPow2(k);
    BitsNeededIff(x, k.Bits());
  }
}
