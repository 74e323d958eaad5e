/** Properties of the framing layer, stated on the value-level `Encrypt`
    and `Decrypt` that `EncryptData` and `DecryptData` are proved to follow. */
module CodecProperties {
  import opened Common
  import opened Quaternions
  import opened Checksums
  import opened Codec

  /** No multiple of 16 between `length` and its padded length. */
  lemma PaddedLengthIsLeast(length: nat, m: nat)
    requires m % BLOCK_SIZE == 0 && length <= m
    ensures PaddedLength(length) <= m
  {
  }

  /** The checks of encryption, in order: any NULL pointer wins over
      everything else; then an invalid key; then the capacity. None of them
      writes the ciphertext, and only the capacity check reports a size. */
  lemma EncryptCheckOrder(plaintext: Option<seq<byte>>, length: size, key: Option<Quaternion>,
                          hasCipher: bool, capacity: Option<size>, transform: BlockTransform)
    requires plaintext.Some? ==> length <= |plaintext.value|
    requires length <= MAX_OBJECT_SIZE
    ensures var outcome := Encrypt(plaintext, length, key, hasCipher, capacity, transform);
      && (plaintext.None? || key.None? || !hasCipher || capacity.None? ==>
            outcome == EncryptOutcome(ERROR_NULL_PTR, None, None))
      && (plaintext.Some? && key.Some? && hasCipher && capacity.Some? && !IsValid(key.value) ==>
            outcome == EncryptOutcome(ERROR_INVALID_DATA, None, None))
      && (plaintext.Some? && key.Some? && hasCipher && capacity.Some? && IsValid(key.value) &&
          capacity.value < RequiredSize(length) ==>
            outcome == EncryptOutcome(ERROR_INVALID_DATA, Some(RequiredSize(length)), None))
      && (outcome.written.Some? <==>
            plaintext.Some? && key.Some? && hasCipher && capacity.Some? && IsValid(key.value) &&
            capacity.value >= RequiredSize(length))
  {
  }

  /** What a write-through encryption stores: a header with the magic, the
      unpadded length, the key and the checksum of the plaintext, followed by
      the transform of the plaintext zero-padded to whole blocks. The
      required size is reported exactly when the transform succeeds. Since
      only valid keys are stored, the conjugate key that decryption derives
      from the frame is valid too. */
  lemma EncryptFrameContents(message: seq<byte>, key: Quaternion, capacity: size, transform: BlockTransform)
    requires |message| <= MAX_OBJECT_SIZE
    requires IsValid(key) && capacity >= RequiredSize(|message|)
    requires PreservesLength(transform)
    ensures var outcome := Encrypt(Some(message), |message|, Some(key), true, Some(capacity), transform);
      var padded := message + Zeros(PaddedLength(|message|) - |message|);
      && outcome.written.Some?
      && outcome.written.value.header == Header(MAGIC, |message|, key, Checksum(message))
      && |padded| % BLOCK_SIZE == 0 && padded[..|message|] == message
      && (forall i :: |message| <= i < |padded| ==> padded[i] == 0)
      && outcome.written.value.body == transform(padded, key).data
      && HEADER_SIZE + |outcome.written.value.body| == RequiredSize(|message|)
      && outcome.status == transform(padded, key).status
      && (outcome.reportedSize.Some? <==> outcome.status == SUCCESS)
      && (outcome.reportedSize.Some? ==> outcome.reportedSize.value == RequiredSize(|message|))
      && IsValid(Conjugate(outcome.written.value.header.key))
  {
    ConjugatePreservesValidity(key);
    var padded := message + Zeros(PaddedLength(|message|) - |message|);
    assert message[..|message|] == message;
    assert padded[..|message|] == message;
  }

  /** The ask-then-retry protocol: an encryption turned down for capacity
      reports a size that fits a size_t and exceeds what was offered, and a
      capacity is enough exactly when it reaches that size. */
  lemma EncryptAskThenRetry(message: seq<byte>, key: Quaternion, capacity: size, transform: BlockTransform)
    requires |message| <= MAX_OBJECT_SIZE
    requires IsValid(key)
    requires Encrypt(Some(message), |message|, Some(key), true, Some(capacity), transform).reportedSize.Some?
    requires Encrypt(Some(message), |message|, Some(key), true, Some(capacity), transform).status == ERROR_INVALID_DATA
    requires Encrypt(Some(message), |message|, Some(key), true, Some(capacity), transform).written.None?
    ensures var asked := Encrypt(Some(message), |message|, Some(key), true, Some(capacity), transform).reportedSize.value;
      && capacity < asked < TWO_64
      && (forall offered: size ::
            Encrypt(Some(message), |message|, Some(key), true, Some(offered), transform).written.Some?
            <==> offered >= asked)
  {
    SizeArithmeticDoesNotWrap(|message|);
  }

  /** The checks of decryption, in order: NULL pointers; a ciphertext shorter
      than a header; a wrong magic; a plaintext capacity below the stored
      length, which alone reports the stored length. None of them writes
      plaintext. */
  lemma DecryptCheckOrder(cipher: Option<Frame>, cipherLength: size, hasKey: bool,
                          plaintext: Option<seq<byte>>, capacity: Option<size>, transform: BlockTransform)
    requires cipher.Some? ==> cipherLength <= HEADER_SIZE + |cipher.value.body|
    requires plaintext.Some? && capacity.Some? ==> capacity.value <= |plaintext.value|
    requires CopyFits(cipher, cipherLength, hasKey, plaintext, capacity)
    requires PreservesLength(transform)
    ensures var outcome := Decrypt(cipher, cipherLength, hasKey, plaintext, capacity, transform);
      && (cipher.None? || !hasKey || plaintext.None? || capacity.None? ==>
            outcome == DecryptOutcome(ERROR_NULL_PTR, None, None))
      && (cipher.Some? && hasKey && plaintext.Some? && capacity.Some? ==>
            && (cipherLength < HEADER_SIZE ==> outcome == DecryptOutcome(ERROR_INVALID_DATA, None, None))
            && (cipherLength >= HEADER_SIZE && cipher.value.header.magic != MAGIC ==>
                  outcome == DecryptOutcome(ERROR_INVALID_DATA, None, None))
            && (cipherLength >= HEADER_SIZE && cipher.value.header.magic == MAGIC &&
                capacity.value < cipher.value.header.length ==>
                  outcome == DecryptOutcome(ERROR_INVALID_DATA, Some(cipher.value.header.length), None)))
      && (outcome.written.Some? <==> PassesDecryptChecks(cipher, cipherLength, hasKey, plaintext.Some?, capacity))
  {
  }

  /** Once the checks pass, decryption writes the transform, under the
      conjugate of the key stored in the header, of the `cipherLength -
      HEADER_SIZE` bytes after the header. When that transform succeeds the
      stored length is reported whatever the checksum says, and the call
      succeeds exactly when the checksum of the first `length` bytes of the
      plaintext buffer matches the header; a mismatch leaves the written
      bytes in place. */
  lemma DecryptAfterChecks(cipher: Frame, cipherLength: size, plaintext: seq<byte>, capacity: size,
                           transform: BlockTransform)
    requires cipherLength <= HEADER_SIZE + |cipher.body|
    requires capacity <= |plaintext|
    requires CopyFits(Some(cipher), cipherLength, true, Some(plaintext), Some(capacity))
    requires PreservesLength(transform)
    requires PassesDecryptChecks(Some(cipher), cipherLength, true, true, Some(capacity))
    ensures var outcome := Decrypt(Some(cipher), cipherLength, true, Some(plaintext), Some(capacity), transform);
      var result := transform(cipher.body[..cipherLength - HEADER_SIZE], Conjugate(cipher.header.key));
      && outcome.written == Some(result.data)
      && |result.data| <= |plaintext|
      && (result.status != SUCCESS ==> outcome.status == result.status && outcome.reportedLength.None?)
      && (result.status == SUCCESS ==>
            && outcome.reportedLength == Some(cipher.header.length)
            && (outcome.status == SUCCESS <==>
                  Checksum(Overwrite(plaintext, result.data)[..cipher.header.length]) == cipher.header.checksum)
            && (outcome.status != SUCCESS ==> outcome.status == ERROR_INVALID_DATA))
  {
  }

  /** The capacity check of decryption does not cover the copy: with a
      stored length of 45, a ciphertext length of HEADER_SIZE + 48 and a
      45-byte plaintext buffer declared as such, every check passes and the
      copy would write 48 bytes. */
  lemma DecryptChecksAdmitOverrun()
    ensures var cipher := Frame(Header(MAGIC, 45, IDENTITY, 0), Zeros(48));
      && PassesDecryptChecks(Some(cipher), HEADER_SIZE + 48, true, true, Some(45))
      && !CopyFits(Some(cipher), HEADER_SIZE + 48, true, Some(Zeros(45)), Some(45))
  {
  }

  /** The hypothesis under which decryption undoes encryption: transforming
      the padded plaintext with the key succeeds, and transforming the result
      with the key's conjugate succeeds and gives the padded plaintext back. */
  ghost predicate ConjugateUndoes(transform: BlockTransform, key: Quaternion, padded: seq<byte>)
  {
    transform(padded, key).status == SUCCESS &&
    transform(transform(padded, key).data, Conjugate(key)) == Transformed(SUCCESS, padded)
  }

  /** Decryption reads only the `cipherLength - HEADER_SIZE` bytes after the
      header, so the bytes an encryption leaves untouched beyond the frame it
      wrote make no difference. */
  lemma DecryptIgnoresSlack(before: Frame, frame: Frame, cipherLength: size, hasKey: bool,
                            plaintext: Option<seq<byte>>, capacity: Option<size>, transform: BlockTransform)
    requires |frame.body| <= |before.body|
    requires cipherLength <= HEADER_SIZE + |frame.body|
    requires plaintext.Some? && capacity.Some? ==> capacity.value <= |plaintext.value|
    requires CopyFits(Some(frame), cipherLength, hasKey, plaintext, capacity)
    requires PreservesLength(transform)
    ensures CopyFits(Some(AfterEncrypt(before, Some(frame))), cipherLength, hasKey, plaintext, capacity)
    ensures Decrypt(Some(AfterEncrypt(before, Some(frame))), cipherLength, hasKey, plaintext, capacity, transform)
         == Decrypt(Some(frame), cipherLength, hasKey, plaintext, capacity, transform)
  {
    var after := AfterEncrypt(before, Some(frame));
    if cipherLength >= HEADER_SIZE {
      assert after.body[..cipherLength - HEADER_SIZE] == frame.body[..cipherLength - HEADER_SIZE];
    }
  }

  /** The round trip the test suite checks, as far as it follows from the
      framing: if the conjugate undoes the transform on the padded
      plaintext, then decrypting the ciphertext buffer encryption leaves,
      with the size it reported and a plaintext buffer large enough for the
      padded body, succeeds, reports the original length and recovers the
      message. */
  lemma RoundTrip(message: seq<byte>, key: Quaternion, before: Frame, capacity: size,
                  buffer: seq<byte>, plainCapacity: size, transform: BlockTransform)
    requires |message| <= MAX_OBJECT_SIZE
    requires IsValid(key)
    requires RequiredSize(|message|) <= capacity <= HEADER_SIZE + |before.body|
    requires |message| <= plainCapacity <= |buffer|
    requires PaddedLength(|message|) <= |buffer|
    requires PreservesLength(transform)
    requires ConjugateUndoes(transform, key, message + Zeros(PaddedLength(|message|) - |message|))
    ensures RequiredSize(|message|) < TWO_64
    ensures var encrypted := Encrypt(Some(message), |message|, Some(key), true, Some(capacity), transform);
      && encrypted.status == SUCCESS
      && encrypted.reportedSize == Some(RequiredSize(|message|))
      && encrypted.written.Some?
      && |encrypted.written.value.body| == PaddedLength(|message|) <= |before.body|
      && var stored := AfterEncrypt(before, encrypted.written);
         && CopyFits(Some(stored), RequiredSize(|message|), true, Some(buffer), Some(plainCapacity))
         && var decrypted := Decrypt(Some(stored), RequiredSize(|message|), true, Some(buffer), Some(plainCapacity), transform);
            && decrypted.status == SUCCESS
            && decrypted.reportedLength == Some(|message|)
            && decrypted.written.Some?
            && AfterDecrypt(buffer, decrypted.written)[..|message|] == message
  {
    SizeArithmeticDoesNotWrap(|message|);
    var padded := message + Zeros(PaddedLength(|message|) - |message|);
    var frame := Frame(Header(MAGIC, |message|, key, Checksum(message)), transform(padded, key).data);
    assert message[..|message|] == message;
    assert Encrypt(Some(message), |message|, Some(key), true, Some(capacity), transform).written == Some(frame);
    var dataSize := RequiredSize(|message|) - HEADER_SIZE;
    assert frame.body[..dataSize] == frame.body;
    DecryptIgnoresSlack(before, frame, RequiredSize(|message|), true, Some(buffer), Some(plainCapacity), transform);
    var recovered := Overwrite(buffer, padded);
    assert recovered[..|message|] == message;
  }

  /** The test's sequence of calls on the caller's buffers: encrypt into a
      ciphertext buffer, then decrypt with the size encryption reported.
      Under the same hypothesis on the transform both calls succeed, the
      reported plaintext length is the message's and the plaintext buffer
      starts with the message. */
  method EncryptThenDecrypt(message: array<byte>, key: QuaternionCell, cipher: CipherBuffer, cipherLength: SizeCell,
                            plaintext: array<byte>, plainLength: SizeCell, transform: BlockTransform)
    returns (encrypted: int, decrypted: int)
    requires message.Length <= MAX_OBJECT_SIZE
    requires IsValid(key.Value())
    requires RequiredSize(message.Length) <= cipherLength.value <= HEADER_SIZE + cipher.body.Length
    requires message.Length <= plainLength.value <= plaintext.Length
    requires PaddedLength(message.Length) <= plaintext.Length
    requires message != cipher.body && plaintext != cipher.body && message != plaintext
    requires cipherLength != plainLength
    requires PreservesLength(transform)
    requires ConjugateUndoes(transform, key.Value(), message[..] + Zeros(PaddedLength(message.Length) - message.Length))
    modifies cipher, cipher.body, cipherLength, plaintext, plainLength
    ensures encrypted == SUCCESS && decrypted == SUCCESS
    ensures cipherLength.value == RequiredSize(message.Length)
    ensures plainLength.value == message.Length
    ensures plaintext[..message.Length] == message[..]
  {
    RoundTrip(message[..], key.Value(), cipher.Value(), cipherLength.value, plaintext[..], plainLength.value, transform);
    encrypted := EncryptData(message, message.Length, key, cipher, cipherLength, transform);
    decrypted := DecryptData(cipher, cipherLength.value, key, plaintext, plainLength, transform);
  }

  /** The sizes of the round-trip test: a 45-byte message, a ciphertext
      buffer of 45 + HEADER_SIZE + 32 bytes and a plaintext buffer of
      45 + 16 bytes. They meet the capacity conditions of `RoundTrip`,
      whereas a plaintext buffer of just the message's 45 bytes would be
      3 bytes short of the body the copy writes. */
  lemma RoundTripTestSizes()
    ensures RequiredSize(45) == HEADER_SIZE + 48 <= 45 + HEADER_SIZE + 32
    ensures PaddedLength(45) == 48 <= 45 + 16
    ensures PaddedLength(45) == 45 + 3
  {
  }
}
