/** `quaternion_generate_key` (Arm.h:125-146): a 64-bit linear-congruential
    generator, started at the seed, is stepped four times; the low 16 bits of
    each new state become one component of the key, which is then normalized
    in place.

    The integer part is modelled exactly. The map from a 16-bit sample to a
    float, `(float)sample / 65535.0f * 2.0f - 1.0f`, and `quaternion_normalize`
    are floating-point code outside the model and are taken as parameters. */
module KeyDerivation {
  import opened Common
  import opened Quaternions

  const LCG_MULTIPLIER: nat := 1103515245
  const LCG_INCREMENT: nat := 12345
  /** `state & 0xFFFF` keeps the state modulo 2^16. */
  const SAMPLE_MODULUS: nat := 0x1_0000

  /** The float mapping of one 16-bit sample. */
  type SampleToFloat = nat -> Float32

  /** What `quaternion_normalize(in, out)` returns and leaves in `*out`;
      on failure the content of `*out` is whatever the routine left there. */
  datatype Normalized = Normalized(status: int, result: Quaternion)
  type Normalizer = Quaternion -> Normalized

  /** `state = state * 1103515245 + 12345` on a uint64. */
  function LcgNext(state: size): size
  {
    (state * LCG_MULTIPLIER + LCG_INCREMENT) % TWO_64
  }

  /** `state & 0xFFFF`. */
  function Sample(state: size): nat
  {
    state % SAMPLE_MODULUS
  }

  /** The four samples drawn from `seed`, one per component w, x, y, z. */
  function KeySamples(seed: size): (samples: seq<nat>)
    ensures |samples| == 4
    ensures forall i :: 0 <= i < 4 ==> samples[i] <= 0xFFFF
  {
    var s1 := LcgNext(seed);
    var s2 := LcgNext(s1);
    var s3 := LcgNext(s2);
    var s4 := LcgNext(s3);
    [Sample(s1), Sample(s2), Sample(s3), Sample(s4)]
  }

  /** The key before normalization. */
  function RawKey(seed: size, toFloat: SampleToFloat): Quaternion
  {
    var s := KeySamples(seed);
    Quaternion(toFloat(s[0]), toFloat(s[1]), toFloat(s[2]), toFloat(s[3]))
  }

  /** The key left in `*key`: whatever the normalization wrote, whatever
      status it returned. */
  function DerivedKey(seed: size, toFloat: SampleToFloat, normalize: Normalizer): Quaternion
  {
    normalize(RawKey(seed, toFloat)).result
  }

  /** `quaternion_generate_key`: does nothing for a NULL key; otherwise
      writes the four mapped samples and normalizes them in place, dropping
      the normalization's return code. */
  method GenerateKey(key: QuaternionCell?, seed: size, toFloat: SampleToFloat, normalize: Normalizer)
    modifies key
    ensures key != null ==> key.Value() == DerivedKey(seed, toFloat, normalize)
  {
    if key == null {
      return;
    }
    var state := seed;
    state := LcgNext(state);
    key.w := toFloat(Sample(state));
    state := LcgNext(state);
    key.x := toFloat(Sample(state));
    state := LcgNext(state);
    key.y := toFloat(Sample(state));
    state := LcgNext(state);
    key.z := toFloat(Sample(state));
    var normalized := normalize(key.Value());
    key.w, key.x, key.y, key.z := normalized.result.w, normalized.result.x, normalized.result.y, normalized.result.z;
  }

  /** Adding a multiple of 2^16 keeps the low 16 bits. */
  lemma ModAddMultiple(x: int, k: int)
    ensures (x + k * SAMPLE_MODULUS) % SAMPLE_MODULUS == x % SAMPLE_MODULUS
  {
  }

  /** 2^16 divides 2^64, so reducing modulo 2^64 first does not change the
      low 16 bits. */
  lemma LowBitsOfWrapped(x: nat)
    ensures x % TWO_64 % SAMPLE_MODULUS == x % SAMPLE_MODULUS
  {
    var q := x / TWO_64;
    assert x == x % TWO_64 + (q * 0x1_0000_0000_0000) * SAMPLE_MODULUS;
    ModAddMultiple(x % TWO_64, q * 0x1_0000_0000_0000);
  }

  /** One generator step maps the low 16 bits of the state to the low 16
      bits of the next state without looking at the higher bits. */
  lemma LcgLowBits(state: size)
    ensures Sample(LcgNext(state)) == Sample(LcgNext(state % SAMPLE_MODULUS))
  {
    var low := state % SAMPLE_MODULUS;
    var high := state / SAMPLE_MODULUS;
    LowBitsOfWrapped(state * LCG_MULTIPLIER + LCG_INCREMENT);
    LowBitsOfWrapped(low * LCG_MULTIPLIER + LCG_INCREMENT);
    assert state * LCG_MULTIPLIER + LCG_INCREMENT
        == (low * LCG_MULTIPLIER + LCG_INCREMENT) + (high * LCG_MULTIPLIER) * SAMPLE_MODULUS;
    ModAddMultiple(low * LCG_MULTIPLIER + LCG_INCREMENT, high * LCG_MULTIPLIER);
  }

  /** States that agree in their low 16 bits stay in agreement. */
  lemma LcgLowBitsAgree(a: size, b: size)
    requires Sample(a) == Sample(b)
    ensures Sample(LcgNext(a)) == Sample(LcgNext(b))
  {
    LcgLowBits(a);
    LcgLowBits(b);
  }

  /** The four samples, and so the key, depend only on the low 16 bits of
      the seed. */
  lemma KeySamplesDependOnLowBits(seed: size)
    ensures KeySamples(seed) == KeySamples(seed % SAMPLE_MODULUS)
  {
    var a1, b1 := LcgNext(seed), LcgNext(seed % SAMPLE_MODULUS);
    LcgLowBits(seed);
    var a2, b2 := LcgNext(a1), LcgNext(b1);
    LcgLowBitsAgree(a1, b1);
    var a3, b3 := LcgNext(a2), LcgNext(b2);
    LcgLowBitsAgree(a2, b2);
    LcgLowBitsAgree(a3, b3);
  }

  /** Hence the 2^64 seeds yield at most 65536 distinct keys: every seed's key
      is also the key of a seed below 2^16. */
  lemma SixteenBitSeedsSuffice(seed: size, toFloat: SampleToFloat, normalize: Normalizer)
    ensures exists small: size ::
      small < SAMPLE_MODULUS && DerivedKey(seed, toFloat, normalize) == DerivedKey(small, toFloat, normalize)
  {
    KeySamplesDependOnLowBits(seed);
    var small: size := seed % SAMPLE_MODULUS;
    assert DerivedKey(seed, toFloat, normalize) == DerivedKey(small, toFloat, normalize);
  }

  /** The float mapping `(float)sample / 65535.0f * 2.0f - 1.0f` carried
      out in exact arithmetic rather than in binary32. */
  function ExactComponent(sample: nat): real
  {
    sample as real / 65535.0 * 2.0 - 1.0
  }

  /** The exact mapping is zero only at the midpoint of 0..65535. */
  lemma ExactComponentZero(sample: nat)
    ensures ExactComponent(sample) == 0.0 <==> (2 * sample) as real == 65535.0
  {
  }

  /** In exact arithmetic every component of the raw key lies in [-1, 1]
      and none is zero, so the raw key is never the zero quaternion that
      normalization would have to reject. */
  lemma ExactComponentsNonZero(seed: size)
    ensures forall i :: 0 <= i < 4 ==>
      -1.0 <= ExactComponent(KeySamples(seed)[i]) <= 1.0 && ExactComponent(KeySamples(seed)[i]) != 0.0
  {
    forall i | 0 <= i < 4
      ensures -1.0 <= ExactComponent(KeySamples(seed)[i]) <= 1.0
      ensures ExactComponent(KeySamples(seed)[i]) != 0.0
    {
      ExactComponentZero(KeySamples(seed)[i]);
    }
  }
}
