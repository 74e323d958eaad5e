# Hypercomplex framing layer, in Dafny

This project models the C wrapper layer of the ARM64 hypercomplex library
(`Arm.h`). The wrapper sits in front of the assembly quaternion routines and
provides:

- `quaternion_is_valid`, which rejects NULL, infinite and NaN components;
- `quaternion_init` and `quaternion_identity`;
- `quaternion_generate_key`, which runs a 64-bit linear-congruential
  generator for four steps and keeps the low 16 bits of each state;
- `compute_checksum`, which shifts a 32-bit accumulator left and xors in each
  byte;
- `hypercomplex_encrypt_data`, which writes a ciphertext made of a header
  (magic `0xDEADBEEF`, unpadded length, a copy of the key, checksum) and then
  the plaintext, zero-padded to 16-byte blocks and transformed in place. It
  asks for a larger buffer by writing the required size into
  `*cipher_length`;
- `hypercomplex_decrypt_data`, which checks the header, copies the body into
  the plaintext buffer, transforms it with the conjugate of the stored key
  and compares checksums.

Modules:

- `Common`: return codes, size_t, byte helpers.
- `Quaternions`: floats as IEEE-754 binary32 bit patterns, validity,
  conjugate, and `quaternion_t` objects as a class.
- `Checksums`: the checksum as a function and as the source's loop.
- `KeyDerivation`: the generator.
- `Codec`: the header record, the size arithmetic, and both operations. Each
  operation appears twice: as a function on values (`Encrypt`, `Decrypt`)
  and as a method on the caller's buffers (`EncryptData`, `DecryptData`)
  that is proved to have exactly that effect.
- `CodecProperties`: check order, the ask-then-retry protocol, frame
  contents, the unchecked copy in decryption, and the conditional round
  trip.

Three routines are parameters of the model. Two are assembly: the block
transform `hypercomplex_encrypt` and `quaternion_normalize`. The third is
the float mapping of a 16-bit sample, which is C floating-point code. The
block transform is assumed only to return as many bytes as it is given.

## Model

| member | source | states |
|---|---|---|
| Quaternions.IsValidAt | Arm.h:118-123 | false for NULL; otherwise true exactly when no component is an infinity or a NaN |
| Quaternions.FiniteClassification | Arm.h:121-122 | `isfinite` on a binary32 accepts exactly the values that are neither infinite nor NaN |
| Quaternions.ValidityEdgeCases | Arm.c:239-256 | 1e-10f and 1e10f in every component are valid; an infinity or a NaN in one component is invalid; the identity is valid |
| Quaternions.Init | Arm.h:55-59 | a non-NULL target receives the four components; NULL is ignored |
| Quaternions.SetIdentity | Arm.h:64-66 | a non-NULL target becomes (1, 0, 0, 0), which is valid |
| Quaternions.NegatePreservesFiniteness | Arm.h:43 | a negated component is finite exactly when the component is |
| Quaternions.ConjugatePreservesValidity | Arm.h:238-240 | the decryption key derived from a stored key is valid exactly when the stored key is |
| Checksums.ComputeChecksum | Arm.h:148-157 | the loop's result is the checksum of exactly the first `length` bytes |
| Checksums.ShiftLeftDoubles | Arm.h:153 | a one-bit left shift of a uint32 is a doubling modulo 2^32 |
| Checksums.ShiftOutVanishes | Arm.h:153 | after 32 or more shifts nothing of an earlier accumulator remains |
| Checksums.ChecksumAppend | Arm.h:152-154 | the checksum of `p + s` is that of `p` shifted left once per byte of `s`, xor that of `s` |
| Checksums.ChecksumForgetsOldBytes | Arm.h:152-154 | when the last 32 bytes agree, the checksums agree, whatever precedes them |
| Checksums.ChecksumCollision | Arm.h:148-157 | two different 33-byte messages have the same checksum |
| KeyDerivation.KeySamples | Arm.h:129-142 | four samples are drawn, each within 0..0xFFFF |
| KeyDerivation.GenerateKey | Arm.h:125-146 | NULL is ignored; otherwise the key becomes the normalized mapping of the four samples from the seed, whatever status normalization returns |
| KeyDerivation.LcgLowBits | Arm.h:132-133 | the low 16 bits of the next state depend only on the low 16 bits of the state |
| KeyDerivation.LcgLowBitsAgree | Arm.h:132-142 | states that agree in the low 16 bits keep agreeing after a step |
| KeyDerivation.KeySamplesDependOnLowBits | Arm.h:129-142 | a seed and its low 16 bits draw the same four samples |
| KeyDerivation.SixteenBitSeedsSuffice | Arm.h:125-146 | every seed's key is also the key of a seed below 2^16, so there are at most 65536 keys |
| KeyDerivation.ExactComponentZero | Arm.h:133 | the sample mapping, in exact arithmetic, is zero only for a sample at the midpoint of 0..65535 |
| KeyDerivation.ExactComponentsNonZero | Arm.h:129-142 | in exact arithmetic every mapped component of the raw key lies in [-1, 1] and is non-zero |
| Codec.PaddedLength | Arm.h:172 | the padded length is a multiple of 16, at least the length, less than 16 above it, and equal to it when it is aligned |
| Codec.SizeArithmeticDoesNotWrap | Arm.h:171-173 | for any length up to the largest object size, the size_t padded and total sizes are exact and fit a size_t |
| Codec.SizeArithmeticWrapsNearSizeMax | Arm.h:172-173 | for a length of SIZE_MAX the padded length wraps to 0 and the total size to just the header |
| Codec.TransformInPlace | Arm.h:197 | the first `n` bytes of the buffer are replaced by their transform; the rest is unchanged |
| Codec.EncryptData | Arm.h:159-204 | return code, `*cipher_length` and ciphertext buffer are exactly those that `Encrypt` gives for the arguments on entry |
| Codec.DecryptData | Arm.h:206-255 | return code, `*plain_length` and plaintext buffer are exactly those that `Decrypt` gives for the arguments on entry |
| CodecProperties.PaddedLengthIsLeast | Arm.h:172 | no multiple of 16 lies between the length and its padded length |
| CodecProperties.EncryptCheckOrder | Arm.h:162-178 | NULL pointers win over everything, then an invalid key, then the capacity; only the capacity check reports a size; the ciphertext is written exactly when all checks pass |
| CodecProperties.EncryptFrameContents | Arm.h:180-203 | the header holds magic, length, key and the checksum of the plaintext; the body is the transform of the plaintext zero-padded to whole blocks; the size is reported exactly when the transform succeeds; the conjugate of the stored key is valid |
| CodecProperties.EncryptAskThenRetry | Arm.h:170-178 | a refusal for capacity reports a size above the capacity offered that fits a size_t, and exactly the capacities at least that size are accepted |
| CodecProperties.DecryptCheckOrder | Arm.h:209-226 | NULL pointers, then a short ciphertext, then a bad magic, then a capacity below the stored length (which alone reports that length); plaintext is written exactly when all checks pass |
| CodecProperties.DecryptAfterChecks | Arm.h:228-254 | after the checks, the plaintext buffer receives the transform under the conjugate of the stored key; on success of the transform the stored length is reported and the call succeeds exactly when the checksum matches; a mismatch leaves the bytes written |
| CodecProperties.DecryptChecksAdmitOverrun | Arm.h:223-236 | a call passes every check while the copy is longer than the plaintext buffer |
| CodecProperties.DecryptIgnoresSlack | Arm.h:232-236 | decryption gives the same outcome on a buffer whose bytes beyond the declared length differ, so the bytes after a written frame do not matter |
| CodecProperties.RoundTrip | Arm.c:205-231 | if the conjugate key undoes the transform on the padded plaintext, decrypting the ciphertext buffer that encryption leaves succeeds, reports the original length and recovers the message |
| CodecProperties.EncryptThenDecrypt | Arm.c:222-231 | calling `EncryptData` and then `DecryptData` on the caller's buffers, both succeed, the reported length is the message's and the plaintext buffer starts with the message |
| CodecProperties.RoundTripTestSizes | Arm.c:206-216 | the test's buffer sizes meet the round trip's capacity conditions; a plaintext buffer sized to the message would be 3 bytes short |

## Left out

- Codec.DecryptData: requires `CopyFits`, that the plaintext buffer holds the `cipher_length - HEADER_SIZE` bytes the copy writes. The source checks only the stored length against `*plain_length`, so a call it accepts can write past the buffer (`CodecProperties.DecryptChecksAdmitOverrun`). The model does not give a meaning to that write.
- Codec.Decrypt: carries the same `CopyFits` precondition, for the same reason.
- Codec.Encrypt, Codec.EncryptData: require `length` to be at most PTRDIFF_MAX (the largest object size). Near SIZE_MAX (lengths above 2^64 - 48) the source's size_t sums wrap, and a huge message could pass the capacity check with a header-only size (`Codec.SizeArithmeticWrapsNearSizeMax`). The model does not describe those calls. No real buffer is that large.
- Codec.EncryptData, Codec.DecryptData: require that each buffer is as large as the length the caller passes for it, and that plaintext and ciphertext do not overlap. The source assumes both without checking.
- The block transform `hypercomplex_encrypt` is assembly and is a parameter of the model. Only length preservation is assumed of it, so the round trip (`CodecProperties.RoundTrip`) is proved under the hypothesis that the conjugate key undoes it. The source itself calls this decryption simplified.
- `quaternion_conjugate` is assembly. It is modelled by its documented effect, (w, -x, -y, -z), with IEEE negation as a sign-bit flip. The only property proved of it is that it keeps a key valid.
- KeyDerivation.GenerateKey: the float mapping `(float)sample / 65535.0f * 2.0f - 1.0f` is C floating-point code and `quaternion_normalize` is assembly. They are parameters of the model, and the normalization's return code is dropped as in the source.
- `quaternion_multiply`, `quaternion_add` and `quaternion_norm` are assembly and not called by the wrapper logic. They are not modelled.
- Floating-point arithmetic beyond `isfinite` and negation is not modelled. A float is its 32-bit pattern.
- The header's byte layout is a record, with HEADER_SIZE fixed at 40, its size on a 64-bit target. Reading the header back from raw bytes, and a ciphertext whose header bytes do not form a header, are not modelled.
- `hypercomplex_benchmark` measures time with the clock and is not modelled. The test program in Arm.c is not modelled either; its cases appear only as lemmas on the model.
- `HC_ERROR_DIVIDE_ZERO` is declared (`Common`) but no modelled operation returns it.
