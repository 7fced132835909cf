/**
  `HashableF64` and `HashableF32`: floating-point values made usable as
  interner keys by comparing and hashing their raw bit patterns.

  A float is represented by its IEEE-754 bit pattern; `to_bits` and
  `from_bits` are exact inverses, so nothing is lost. No numeric value or
  arithmetic is modelled. Under bit-pattern equality every NaN equals
  itself, NaNs with different payloads differ, and `+0.0` differs from `-0.0`.
 */
module Float {
  import opened Results
  import opened Handles
  import opened Interning

  /** An `f64`, held as its bit pattern: `to_bits` reads `bits`, `from_bits` builds one. */
  datatype F64 = F64FromBits(bits: bv64)

  /** An `f32`, held as its bit pattern. */
  datatype F32 = F32FromBits(bits: bv32)

  /** `HashableF64(pub f64)`. */
  datatype HashableF64 = HashableF64(inner: F64)

  /** `HashableF32(pub f32)`. */
  datatype HashableF32 = HashableF32(inner: F32)

  // IEEE-754 binary64 and binary32 layouts.
  const SignBit64: bv64 := 0x8000_0000_0000_0000
  const ExponentMask64: bv64 := 0x7FF0_0000_0000_0000
  const MantissaMask64: bv64 := 0x000F_FFFF_FFFF_FFFF
  const SignBit32: bv32 := 0x8000_0000
  const ExponentMask32: bv32 := 0x7F80_0000
  const MantissaMask32: bv32 := 0x007F_FFFF

  /** `f64::NAN` and `f32::NAN`, the canonical quiet NaNs. */
  const Nan64: F64 := F64FromBits(0x7FF8_0000_0000_0000)
  const Nan32: F32 := F32FromBits(0x7FC0_0000)

  /** `0.0` and `-0.0`: the zero pattern and the sign bit alone. */
  const PosZero64: F64 := F64FromBits(0)
  const NegZero64: F64 := F64FromBits(SignBit64)
  const PosZero32: F32 := F32FromBits(0)
  const NegZero32: F32 := F32FromBits(SignBit32)

  /** A NaN: all exponent bits set and a non-zero mantissa. */
  predicate IsNan64(x: F64) {
    x.bits & ExponentMask64 == ExponentMask64 && x.bits & MantissaMask64 != 0
  }

  predicate IsNan32(x: F32) {
    x.bits & ExponentMask32 == ExponentMask32 && x.bits & MantissaMask32 != 0
  }

  /** A zero of either sign: every bit but the sign bit is clear. */
  predicate IsZero64(x: F64) {
    x.bits & !SignBit64 == 0
  }

  predicate IsZero32(x: F32) {
    x.bits & !SignBit32 == 0
  }

  /**
    `PartialEq::eq` for `HashableF64`: equal bit patterns. It coincides
    with equality of the wrapper values themselves, so a store of
    wrappers deduplicates by bit pattern.
   */
  function EqF64(a: HashableF64, b: HashableF64): (r: bool)
    ensures r <==> a == b
  {
    a.inner.bits == b.inner.bits
  }

  /** `PartialEq::eq` for `HashableF32`: equal bit patterns. */
  function EqF32(a: HashableF32, b: HashableF32): (r: bool)
    ensures r <==> a == b
  {
    a.inner.bits == b.inner.bits
  }

  /**
    `Hash::hash` for `HashableF64`: the hasher is fed the bit pattern and
    nothing else. `write` stands for the hasher's state update.
   */
  function HashF64<S>(a: HashableF64, write: bv64 -> S): (r: S)
    ensures forall b: HashableF64 | EqF64(a, b) :: r == write(b.inner.bits)
  {
    write(a.inner.bits)
  }

  /** `Hash::hash` for `HashableF32`. */
  function HashF32<S>(a: HashableF32, write: bv32 -> S): (r: S)
    ensures forall b: HashableF32 | EqF32(a, b) :: r == write(b.inner.bits)
  {
    write(a.inner.bits)
  }

  /** `HashableF64::new` and `From<f64>`: wraps the value unchanged. */
  function NewF64(x: F64): (r: HashableF64)
    ensures r.inner.bits == x.bits
  {
    HashableF64(x)
  }

  /** `HashableF32::new` and `From<f32>`. */
  function NewF32(x: F32): (r: HashableF32)
    ensures r.inner.bits == x.bits
  {
    HashableF32(x)
  }

  /** `into_inner`, `as_inner`, `Deref` and `From<HashableF64> for f64`: the held value. */
  function IntoInnerF64(w: HashableF64): (x: F64)
    ensures NewF64(x) == w
  {
    w.inner
  }

  /** `into_inner`, `as_inner`, `Deref` and `From<HashableF32> for f32`. */
  function IntoInnerF32(w: HashableF32): (x: F32)
    ensures NewF32(x) == w
  {
    w.inner
  }

  /** The derived `Clone` (and `Copy`): a copy equal to the original. */
  function CloneF64(w: HashableF64): (r: HashableF64)
    ensures EqF64(r, w)
  {
    HashableF64(F64FromBits(w.inner.bits))
  }

  function CloneF32(w: HashableF32): (r: HashableF32)
    ensures EqF32(r, w)
  {
    HashableF32(F32FromBits(w.inner.bits))
  }

  /** Wrapping and unwrapping return bit-identical floats, in both orders. */
  lemma ConstructionRoundTrip(x: F64, y: F32, w: HashableF64, v: HashableF32)
    ensures IntoInnerF64(NewF64(x)).bits == x.bits
    ensures IntoInnerF32(NewF32(y)).bits == y.bits
    ensures NewF64(IntoInnerF64(w)) == w
    ensures NewF32(IntoInnerF32(v)) == v
  {
  }

  /**
    Bit-pattern equality is a total equivalence relation on every
    pattern, NaNs included: reflexive, symmetric and transitive.
   */
  lemma EqIsEquivalence(a: HashableF64, b: HashableF64, c: HashableF64,
                        x: HashableF32, y: HashableF32, z: HashableF32)
    ensures EqF64(a, a)
    ensures EqF64(a, b) <==> EqF64(b, a)
    ensures EqF64(a, b) && EqF64(b, c) ==> EqF64(a, c)
    ensures EqF32(x, x)
    ensures EqF32(x, y) <==> EqF32(y, x)
    ensures EqF32(x, y) && EqF32(y, z) ==> EqF32(x, z)
  {
  }

  /** Equal wrappers hash identically, whatever the hasher. */
  lemma HashConsistent<S>(a: HashableF64, b: HashableF64, x: HashableF32, y: HashableF32,
                          write64: bv64 -> S, write32: bv32 -> S)
    ensures EqF64(a, b) ==> HashF64(a, write64) == HashF64(b, write64)
    ensures EqF32(x, y) ==> HashF32(x, write32) == HashF32(y, write32)
  {
  }

  /**
    Every NaN wrapper equals itself, and the canonical NaN equals a NaN
    rebuilt from its bits; a NaN with another payload is a different key.
   */
  lemma NanSelfEqual(n: F64, m: F32)
    ensures IsNan64(Nan64) && IsNan32(Nan32)
    ensures IsNan64(n) ==> EqF64(NewF64(n), NewF64(n))
    ensures IsNan32(m) ==> EqF32(NewF32(m), NewF32(m))
    ensures EqF64(NewF64(Nan64), NewF64(F64FromBits(Nan64.bits)))
    ensures EqF32(NewF32(Nan32), NewF32(F32FromBits(Nan32.bits)))
    ensures var other := F64FromBits(0x7FF8_0000_0000_0001);
            IsNan64(other) && !EqF64(NewF64(Nan64), NewF64(other))
    ensures var other := F32FromBits(0x7FC0_0001);
            IsNan32(other) && !EqF32(NewF32(Nan32), NewF32(other))
  {
  }

  /** `+0.0` and `-0.0` are both zeros, yet different keys, for both widths. */
  lemma SignedZerosDiffer()
    ensures IsZero64(PosZero64) && IsZero64(NegZero64)
    ensures !EqF64(NewF64(PosZero64), NewF64(NegZero64))
    ensures IsZero32(PosZero32) && IsZero32(NegZero32)
    ensures !EqF32(NewF32(PosZero32), NewF32(NegZero32))
  {
  }

  /**
    In an interner of `HashableF64`, interning NaN twice yields one entry
    and one handle, while `+0.0` and `-0.0` get separate handles.
   */
  lemma FloatKeysInStore()
    ensures var s0 := New<HashableF64>(U32);
            var r1 := InternOwned(s0, NewF64(Nan64));
            var r2 := InternOwned(r1.after, NewF64(Nan64));
            r1.result == Ok(0) && r2.result == Ok(0) && Len(r2.after) == 1
    ensures var s0 := New<HashableF64>(U32);
            var r1 := InternOwned(s0, NewF64(PosZero64));
            var r2 := InternOwned(r1.after, NewF64(NegZero64));
            r1.result == Ok(0) && r2.result == Ok(1) && Len(r2.after) == 2
  {
  }
}
