/**
 The parameters a block is encoded with and the float arithmetic they stand for.

 Float multiplication, division and rounding are not computed here: `Arith` carries
 them as arbitrary functions on bit patterns. Integer products are computed, with
 the width each call site multiplies in.
 */
module Params {
  import opened Wrappers
  import opened Words
  import opened Floats

  // exponent, factor and decode mode found by sampling
  datatype BestParams = BestParams(exp: nat, fac: nat, useDiv: bool)

  // the parameters a block header carries
  datatype AlpParams = AlpParams(exp: nat, fac: nat, bitWidth: nat, useDiv: bool) {
    function Best(): BestParams { BestParams(exp, fac, useDiv) }

    // what the decoder accepts
    predicate Validate(k: FloatKind) {
      exp <= k.MaxExponent() && fac <= k.MaxFac() && fac <= exp && bitWidth <= k.Bits()
    }
  }

  predicate ValidBest(k: FloatKind, p: BestParams) {
    p.exp <= k.MaxExponent() && p.fac <= k.MaxFac() && p.fac <= p.exp
  }

  datatype Arith = Arith(
    kind: FloatKind,
    // round: bits of v, e -> (v * 10^e) rounded to even, cast to the integer type
    round: (nat, nat) -> int,
    // times: i, e -> bits of (i as float) * 10^-e
    times: (int, nat) -> nat,
    // divide: i, e -> bits of (i as float) / 10^e
    divide: (int, nat) -> nat,
    // impossible: the float is not finite, too large, or negative zero
    impossible: nat -> bool,
    // scaledImpossible: the same of v * 10^e
    scaledImpossible: (nat, nat) -> bool
  ) {
    ghost predicate Valid() {
      && (forall v, e :: kind.IsInt(round(v, e)))
      && (forall i, e :: kind.IsBits(times(i, e)))
      && (forall i, e :: kind.IsBits(divide(i, e)))
    }
  }

  function Pow10(e: nat): (r: nat)
    ensures r > 0
  {
    if e == 0 then 1 else 10 * Pow10(e - 1)
  }

  // The integer the encoding kernel stores for a float.
  function Encode(ar: Arith, p: BestParams, v: nat): int
    requires p.fac <= p.exp
  {
    ar.round(v, p.exp - p.fac)
  }

  // What the kernel decodes to decide acceptance: the product with the factor is
  // taken in the integer type of the float.
  function KernelDecode(ar: Arith, p: BestParams, i: int): nat
    requires p.fac <= p.exp
  {
    if p.useDiv then ar.divide(i, p.exp - p.fac)
    else if p.fac == 0 then ar.times(i, p.exp)
    else ar.times(ar.kind.Wrap(i * Pow10(p.fac)), p.exp)
  }

  // What the decoder computes: the product is taken in 64 bits for both kinds.
  function Decode(ar: Arith, p: BestParams, i: int): nat
    requires p.fac <= p.exp
  {
    if p.useDiv then ar.divide(i, p.exp - p.fac)
    else if p.fac == 0 then ar.times(i, p.exp)
    else ar.times(F64.Wrap(i * Pow10(p.fac)), p.exp)
  }

  predicate Accepts(ar: Arith, p: BestParams, v: nat)
    requires p.fac <= p.exp
  {
    KernelDecode(ar, p, Encode(ar, p, v)) == v
  }

  // A float the kernel accepts is the float the decoder restores.
  ghost predicate KernelFaithful(ar: Arith) {
    forall p: BestParams, v: nat :: ValidBest(ar.kind, p) && Accepts(ar, p, v) ==>
      Decode(ar, p, Encode(ar, p, v)) == v
  }

  // The only floats on which kernel and decoder can part: f32, a factor, and a
  // product outside 32 bits.
  predicate WrappedProduct(ar: Arith, p: BestParams, v: nat)
    requires p.fac <= p.exp
  {
    ar.kind.F32? && !p.useDiv && p.fac > 0 && !F32.IsInt(Encode(ar, p, v) * Pow10(p.fac))
  }

  lemma ProductFits32(k: FloatKind, i: int, fac: nat)
    requires k.F64? || F32.IsInt(i * Pow10(fac))
    ensures k.Wrap(i * Pow10(fac)) == F64.Wrap(i * Pow10(fac))
  {
    var product := i * Pow10(fac);
    if F32.IsInt(product) {
      WrapIsIdentity(F32, product);
      WrapIsIdentity(F64, product);
    }
  }

  lemma FaithfulUnlessWrapped(ar: Arith, p: BestParams, v: nat)
    requires ValidBest(ar.kind, p) && Accepts(ar, p, v) && !WrappedProduct(ar, p, v)
    ensures Decode(ar, p, Encode(ar, p, v)) == v
  {
    if !p.useDiv && p.fac > 0 {
      ProductFits32(ar.kind, Encode(ar, p, v), p.fac);
    }
  }

  // For f64 there is nothing to assume; for f32 it is exactly that no wrapped
  // product is accepted without decoding to the same float.
  lemma KernelFaithfulIff(ar: Arith)
    ensures KernelFaithful(ar) <==>
      forall p: BestParams, v: nat :: ValidBest(ar.kind, p) && Accepts(ar, p, v) && WrappedProduct(ar, p, v)
        ==> Decode(ar, p, Encode(ar, p, v)) == v
    ensures ar.kind.F64? ==> KernelFaithful(ar)
  {
    forall p: BestParams, v: nat | ValidBest(ar.kind, p) && Accepts(ar, p, v) && !WrappedProduct(ar, p, v)
      ensures Decode(ar, p, Encode(ar, p, v)) == v
    {
      FaithfulUnlessWrapped(ar, p, v);
    }
  }

  // encode one sample, or nothing when it does not round-trip
  function TryEncodeFast(ar: Arith, exp: nat, fac: nat, v: nat): Option<int>
    requires fac <= exp
  {
    var i := ar.round(v, exp - fac);
    if ar.impossible(v) || ar.scaledImpossible(v, exp - fac) then None
    else if fac > 0 && !F64.IsInt(i * Pow10(fac)) then None
    else if ar.times(i * Pow10(fac), exp) == v then Some(i)
    else None
  }

  function TryEncodeDiv(ar: Arith, exp: nat, v: nat): Option<int> {
    if ar.impossible(v) || ar.scaledImpossible(v, exp) then None
    else if ar.divide(ar.round(v, exp), exp) == v then Some(ar.round(v, exp))
    else None
  }

  lemma TryEncodeFastDecodes(ar: Arith, exp: nat, fac: nat, v: nat)
    requires fac <= exp && TryEncodeFast(ar, exp, fac, v).Some?
    ensures Decode(ar, BestParams(exp, fac, false), TryEncodeFast(ar, exp, fac, v).value) == v
  {
    var i := ar.round(v, exp - fac);
    assert Pow10(0) == 1;
    if fac > 0 {
      WrapIsIdentity(F64, i * Pow10(fac));
    }
  }

  // ---------- the two parameter bytes ----------

  // exp in 5 bits, fac in 4, bit width in 7
  function PackParams(p: AlpParams): (r: nat)
    ensures r < 0x1_0000
  {
    p.exp % 32 + p.fac % 16 * 32 + p.bitWidth % 128 * 512
  }

  function UnpackParams(packed: nat, useDiv: bool): AlpParams {
    AlpParams(packed % 32, packed / 32 % 16, packed / 512 % 128, useDiv)
  }

  lemma ParamsRoundTrip(k: FloatKind, p: AlpParams)
    requires p.Validate(k)
    ensures UnpackParams(PackParams(p), p.useDiv) == p
  {
    FieldsApart(p.exp, p.fac, p.bitWidth);
  }

  lemma FieldsApart(exp: nat, fac: nat, bw: nat)
    requires exp < 32 && fac < 16 && bw < 128
    ensures var x := exp + fac * 32 + bw * 512;
      x % 32 == exp && x / 32 % 16 == fac && x / 512 % 128 == bw
  {
    var x := exp + fac * 32 + bw * 512;
    assert x / 32 == fac + bw * 16;
    assert x / 512 == bw;
  }
}
