/** The quaternion value type of the wrapper (Arm.h:19-21) and the parts of
    its arithmetic the wrapper relies on: the validity check, `quaternion_init`
    and the conjugate used by decryption.

    A `float` component is modelled by its IEEE-754 binary32 bit pattern, so
    that `isfinite` and negation are exact bit operations; the rest of the
    floating-point arithmetic stays outside the model. */
module Quaternions {

  /** An IEEE-754 single-precision value, as its 32 bits. */
  type Float32 = bv32

  const SIGN_BIT: Float32 := 0x8000_0000
  const EXPONENT_MASK: Float32 := 0x7F80_0000
  const FRACTION_MASK: Float32 := 0x007F_FFFF

  const ZERO: Float32 := 0x0000_0000
  const ONE: Float32 := 0x3F80_0000
  const INFINITY: Float32 := 0x7F80_0000
  const QUIET_NAN: Float32 := 0x7FC0_0000
  /** The nearest binary32 values to 1e-10 and 1e10. */
  const TINY: Float32 := 0x2EDB_E6FF
  const HUGE: Float32 := 0x5015_02F9

  /** C's `isfinite`: the exponent field is not all ones. */
  predicate IsFinite(f: Float32)
  {
    f & EXPONENT_MASK != EXPONENT_MASK
  }

  /** Plus or minus infinity: all-ones exponent, zero fraction. */
  predicate IsInfinite(f: Float32)
  {
    f & !SIGN_BIT == INFINITY
  }

  /** A NaN: all-ones exponent, non-zero fraction. */
  predicate IsNaN(f: Float32)
  {
    f & EXPONENT_MASK == EXPONENT_MASK && f & FRACTION_MASK != 0
  }

  /** IEEE negation flips the sign bit and nothing else. */
  function Negate(f: Float32): Float32
  {
    f ^ SIGN_BIT
  }

  datatype Quaternion = Quaternion(w: Float32, x: Float32, y: Float32, z: Float32)

  function Components(q: Quaternion): seq<Float32>
  {
    [q.w, q.x, q.y, q.z]
  }

  /** The multiplicative identity (1, 0, 0, 0). */
  const IDENTITY: Quaternion := Quaternion(ONE, ZERO, ZERO, ZERO)

  /** The body of `quaternion_is_valid` once its pointer is known non-NULL. */
  predicate IsValid(q: Quaternion)
  {
    IsFinite(q.w) && IsFinite(q.x) && IsFinite(q.y) && IsFinite(q.z)
  }

  /** `quaternion_conjugate`: (w, -x, -y, -z). */
  function Conjugate(q: Quaternion): Quaternion
  {
    Quaternion(q.w, Negate(q.x), Negate(q.y), Negate(q.z))
  }

  /** A `quaternion_t` object in memory; a `quaternion_t*` is a
      `QuaternionCell?`. */
  class QuaternionCell {
    var w: Float32
    var x: Float32
    var y: Float32
    var z: Float32

    function Value(): Quaternion
      reads this
    {
      Quaternion(w, x, y, z)
    }

    constructor (q: Quaternion)
      ensures Value() == q
    {
      w, x, y, z := q.w, q.x, q.y, q.z;
    }
  }

  /** `isfinite` accepts exactly the values that are neither infinite nor NaN. */
  lemma FiniteClassification(f: Float32)
    ensures IsFinite(f) <==> !IsInfinite(f) && !IsNaN(f)
  {
  }

  /** `quaternion_is_valid`: false for NULL, otherwise true exactly when no
      component is an infinity or a NaN. */
  function IsValidAt(q: QuaternionCell?): (valid: bool)
    reads q
    ensures valid <==>
      (q != null && forall c :: c in Components(q.Value()) ==> !IsInfinite(c) && !IsNaN(c))
  {
    if q == null then false
    else
      FiniteClassification(q.w);
      FiniteClassification(q.x);
      FiniteClassification(q.y);
      FiniteClassification(q.z);
      IsValid(q.Value())
  }

  /** The edge cases the test suite checks: tiny and huge finite values are
      valid, an infinity or a NaN in one component is not. */
  lemma ValidityEdgeCases()
    ensures IsValid(Quaternion(TINY, TINY, TINY, TINY))
    ensures IsValid(Quaternion(HUGE, HUGE, HUGE, HUGE))
    ensures !IsValid(Quaternion(INFINITY, ZERO, ZERO, ZERO))
    ensures !IsValid(Quaternion(QUIET_NAN, ZERO, ZERO, ZERO))
    ensures IsValid(IDENTITY)
  {
  }

  /** Negation flips only the sign bit, so it keeps a value finite or
      non-finite. */
  lemma NegatePreservesFiniteness(f: Float32)
    ensures IsFinite(Negate(f)) <==> IsFinite(f)
  {
  }

  /** Conjugation keeps a quaternion valid or invalid. */
  lemma ConjugatePreservesValidity(q: Quaternion)
    ensures IsValid(Conjugate(q)) <==> IsValid(q)
  {
    NegatePreservesFiniteness(q.x);
    NegatePreservesFiniteness(q.y);
    NegatePreservesFiniteness(q.z);
  }

  /** `quaternion_init`: a non-NULL target receives all four components;
      NULL is ignored. */
  method Init(q: QuaternionCell?, w: Float32, x: Float32, y: Float32, z: Float32)
    modifies q
    ensures q != null ==> q.Value() == Quaternion(w, x, y, z)
  {
    if q != null {
      q.w := w;
      q.x := x;
      q.y := y;
      q.z := z;
    }
  }

  /** `quaternion_identity`. */
  method SetIdentity(q: QuaternionCell?)
    modifies q
    ensures q != null ==> q.Value() == IDENTITY && IsValid(q.Value())
  {
    Init(q, ONE, ZERO, ZERO, ZERO);
  }
}
