/** The framing layer of the quaternion cipher: `hypercomplex_encrypt_data`
    and `hypercomplex_decrypt_data` (Arm.h:159-255).

    A ciphertext is a header record (magic, unpadded length, a copy of the
    key, checksum) followed by the plaintext zero-padded to a multiple of 16
    bytes and transformed in place by the external block transform
    `hypercomplex_encrypt`. That transform is assembly whose body is not part
    of this model: it is a parameter, assumed only to keep the length of what
    it transforms. The exact byte layout of the header is replaced by a
    record and the constant HEADER_SIZE.

    Each operation is given twice: as a function on values (`Encrypt`,
    `Decrypt`) that says what the call returns, reports and writes, and as a
    method on the caller's buffers (`EncryptData`, `DecryptData`) proved to
    do exactly that. */
module Codec {
  import opened Common
  import opened Quaternions
  import opened Checksums

  const MAGIC: bv32 := 0xDEAD_BEEF

  /** `sizeof(hypercomplex_header_t)` on the 64-bit target: magic (4),
      alignment padding (4), length (8), key (16), checksum (4), tail
      padding (4). */
  const HEADER_SIZE: nat := 40

  /** The transform works on 16-byte blocks, one quaternion each. */
  const BLOCK_SIZE: nat := 16

  datatype Header = Header(magic: bv32, length: size, key: Quaternion, checksum: bv32)

  /** The contents of a ciphertext buffer: its header and the bytes after it. */
  datatype Frame = Frame(header: Header, body: seq<byte>)

  /** A caller's ciphertext buffer; a `void* ciphertext` is a `CipherBuffer?`. */
  class CipherBuffer {
    var header: Header
    const body: array<byte>

    function Value(): Frame
      reads this, body
    {
      Frame(header, body[..])
    }

    constructor (header: Header, body: array<byte>)
      ensures this.header == header && this.body == body
    {
      this.header := header;
      this.body := body;
    }
  }

  /** What `hypercomplex_encrypt(in, key, out, n)` returns and writes. */
  datatype Transformed = Transformed(status: int, data: seq<byte>)
  type BlockTransform = (seq<byte>, Quaternion) -> Transformed

  /** The one property assumed of the block transform: it writes exactly as
      many bytes as it is given. */
  ghost predicate PreservesLength(transform: BlockTransform)
  {
    forall data, key :: |transform(data, key).data| == |data|
  }

  function KeyAt(key: QuaternionCell?): Option<Quaternion>
    reads key
  {
    if key == null then None else Some(key.Value())
  }

  /** `buffer` with its first `|prefix|` bytes replaced by `prefix`. */
  function Overwrite(buffer: seq<byte>, prefix: seq<byte>): seq<byte>
    requires |prefix| <= |buffer|
  {
    prefix + buffer[|prefix|..]
  }

  // ---------------------------------------------------------------------
  // Size arithmetic

  /** The plaintext length rounded up to whole blocks: the least multiple of
      16 that is not below `length`. */
  function PaddedLength(length: nat): (padded: nat)
    ensures padded % BLOCK_SIZE == 0
    ensures length <= padded < length + BLOCK_SIZE
    ensures length % BLOCK_SIZE == 0 ==> padded == length
  {
    ((length + 15) / 16) * 16
  }

  /** The ciphertext size encryption needs and reports. */
  function RequiredSize(length: nat): nat
  {
    HEADER_SIZE + PaddedLength(length)
  }

  /** `((length + 15) / 16) * 16` evaluated in size_t. */
  function PaddedLengthAsWritten(length: size): size
  {
    ((length + 15) % TWO_64 / 16) * 16
  }

  /** `header_size + padded_length` evaluated in size_t. */
  function TotalSizeAsWritten(length: size): size
  {
    (HEADER_SIZE + PaddedLengthAsWritten(length)) % TWO_64
  }

  // ---------------------------------------------------------------------
  // Encryption

  /** The effect of one call of `hypercomplex_encrypt_data`: the return code,
      the value stored in `*cipher_length` (None: left alone), and what is
      stored in the ciphertext buffer (None: nothing), namely the header and
      the transformed padded plaintext at the start of the body. */
  datatype EncryptOutcome = EncryptOutcome(status: int, reportedSize: Option<nat>, written: Option<Frame>)

  /** `hypercomplex_encrypt_data` on values. A None argument is a NULL
      pointer; `capacity` is `*cipher_length` on entry. */
  function Encrypt(plaintext: Option<seq<byte>>, length: size, key: Option<Quaternion>,
                   hasCipher: bool, capacity: Option<size>, transform: BlockTransform): EncryptOutcome
    requires plaintext.Some? ==> length <= |plaintext.value|
    requires length <= MAX_OBJECT_SIZE
  {
    if plaintext.None? || key.None? || !hasCipher || capacity.None? then
      EncryptOutcome(ERROR_NULL_PTR, None, None)
    else if !IsValid(key.value) then
      EncryptOutcome(ERROR_INVALID_DATA, None, None)
    else if capacity.value < RequiredSize(length) then
      EncryptOutcome(ERROR_INVALID_DATA, Some(RequiredSize(length)), None)
    else
      var message := plaintext.value[..length];
      var header := Header(MAGIC, length, key.value, Checksum(message));
      var padded := message + Zeros(PaddedLength(length) - length);
      var result := transform(padded, key.value);
      EncryptOutcome(result.status,
                     if result.status == SUCCESS then Some(RequiredSize(length)) else None,
                     Some(Frame(header, result.data)))
  }

  /** The ciphertext buffer after an encryption with outcome `written`. */
  function AfterEncrypt(buffer: Frame, written: Option<Frame>): Frame
    requires written.Some? ==> |written.value.body| <= |buffer.body|
  {
    if written.None? then buffer
    else Frame(written.value.header, Overwrite(buffer.body, written.value.body))
  }

  /** `hypercomplex_encrypt(buffer, key, buffer, n)`: the first `n` bytes of
      `buffer` are replaced by their transform. */
  method TransformInPlace(buffer: array<byte>, n: nat, key: Quaternion, transform: BlockTransform)
    returns (status: int)
    requires n <= buffer.Length
    requires PreservesLength(transform)
    modifies buffer
    ensures status == transform(old(buffer[..n]), key).status
    ensures buffer[..] == Overwrite(old(buffer[..]), transform(old(buffer[..n]), key).data)
  {
    var result := transform(buffer[..n], key);
    forall i | 0 <= i < n {
      buffer[i] := result.data[i];
    }
    status := result.status;
  }

  /** `hypercomplex_encrypt_data`. The caller's buffers must be as large as
      the lengths it passes say, and must not overlap (`memcpy`). */
  method EncryptData(plaintext: array?<byte>, length: size, key: QuaternionCell?,
                     cipher: CipherBuffer?, cipherLength: SizeCell?, transform: BlockTransform)
    returns (status: int)
    requires plaintext != null ==> length <= plaintext.Length
    requires length <= MAX_OBJECT_SIZE
    requires cipher != null && cipherLength != null ==> cipherLength.value <= HEADER_SIZE + cipher.body.Length
    requires plaintext != null && cipher != null ==> plaintext != cipher.body
    requires PreservesLength(transform)
    modifies cipherLength, cipher, if cipher == null then {} else {cipher.body}
    ensures var outcome := Encrypt(old(BytesAt(plaintext)), length, old(KeyAt(key)), cipher != null,
                                   old(SizeAt(cipherLength)), transform);
            && status == outcome.status
            && (cipherLength != null ==>
                  cipherLength.value == if outcome.reportedSize.Some? then outcome.reportedSize.value
                                        else old(cipherLength.value))
            && (cipher != null ==> outcome.written.Some? ==> |outcome.written.value.body| <= |old(cipher.Value()).body|)
            && (cipher != null ==> cipher.Value() == AfterEncrypt(old(cipher.Value()), outcome.written))
  {
    if plaintext == null || key == null || cipher == null || cipherLength == null {
      return ERROR_NULL_PTR;
    }
    if !IsValidAt(key) {
      return ERROR_INVALID_DATA;
    }
    var paddedLength := ((length + 15) % TWO_64 / 16) * 16;
    var totalSize := (HEADER_SIZE + paddedLength) % TWO_64;
    SizeArithmeticDoesNotWrap(length);
    if cipherLength.value < totalSize {
      cipherLength.value := totalSize;
      return ERROR_INVALID_DATA;
    }
    ghost var message := plaintext[..length];
    ghost var before := cipher.body[..];
    var checksum := ComputeChecksum(plaintext, length);
    cipher.header := Header(MAGIC, length, key.Value(), checksum);
    forall i | 0 <= i < length {
      cipher.body[i] := plaintext[i];
    }
    if paddedLength > length {
      forall i | length <= i < paddedLength {
        cipher.body[i] := 0;
      }
    }
    assert cipher.body[..paddedLength] == message + Zeros(paddedLength - length);
    assert cipher.body[paddedLength..] == before[paddedLength..];
    status := TransformInPlace(cipher.body, paddedLength, key.Value(), transform);
    if status == SUCCESS {
      cipherLength.value := totalSize;
    }
  }

  /** Within the size of any real object the size_t sums of the source do
      not wrap, so they equal the exact ones. */
  lemma SizeArithmeticDoesNotWrap(length: size)
    requires length <= MAX_OBJECT_SIZE
    ensures PaddedLengthAsWritten(length) == PaddedLength(length)
    ensures TotalSizeAsWritten(length) == RequiredSize(length)
    ensures RequiredSize(length) < TWO_64
  {
  }

  /** Just below 2^64 they do wrap: the padded length of SIZE_MAX bytes
      evaluates to 0 and the required size to just the header. */
  lemma SizeArithmeticWrapsNearSizeMax()
    ensures PaddedLengthAsWritten(SIZE_MAX) == 0 < SIZE_MAX
    ensures TotalSizeAsWritten(SIZE_MAX) == HEADER_SIZE
  {
  }

  // ---------------------------------------------------------------------
  // Decryption

  /** The effect of one call of `hypercomplex_decrypt_data`: the return code,
      the value stored in `*plain_length` (None: left alone), and the bytes
      stored at the start of the plaintext buffer (None: nothing). */
  datatype DecryptOutcome = DecryptOutcome(status: int, reportedLength: Option<nat>, written: Option<seq<byte>>)

  /** All the checks before the copy pass. */
  predicate PassesDecryptChecks(cipher: Option<Frame>, cipherLength: size, hasKey: bool,
                                hasPlaintext: bool, capacity: Option<size>)
  {
    cipher.Some? && hasKey && hasPlaintext && capacity.Some? &&
    cipherLength >= HEADER_SIZE &&
    cipher.value.header.magic == MAGIC &&
    capacity.value >= cipher.value.header.length
  }

  /** What the source silently needs of its caller: once the checks pass,
      `cipher_length - HEADER_SIZE` bytes are copied into the plaintext
      buffer, whose declared size was only compared with the header's
      length. */
  predicate CopyFits(cipher: Option<Frame>, cipherLength: size, hasKey: bool,
                     plaintext: Option<seq<byte>>, capacity: Option<size>)
  {
    PassesDecryptChecks(cipher, cipherLength, hasKey, plaintext.Some?, capacity) ==>
      cipherLength - HEADER_SIZE <= |plaintext.value|
  }

  /** `hypercomplex_decrypt_data` on values. `hasKey` is all that is used of
      the caller's key; `capacity` is `*plain_length` on entry and
      `plaintext` the plaintext buffer's contents on entry. */
  function Decrypt(cipher: Option<Frame>, cipherLength: size, hasKey: bool,
                   plaintext: Option<seq<byte>>, capacity: Option<size>, transform: BlockTransform): DecryptOutcome
    requires cipher.Some? ==> cipherLength <= HEADER_SIZE + |cipher.value.body|
    requires plaintext.Some? && capacity.Some? ==> capacity.value <= |plaintext.value|
    requires CopyFits(cipher, cipherLength, hasKey, plaintext, capacity)
    requires PreservesLength(transform)
  {
    if cipher.None? || !hasKey || plaintext.None? || capacity.None? then
      DecryptOutcome(ERROR_NULL_PTR, None, None)
    else if cipherLength < HEADER_SIZE then
      DecryptOutcome(ERROR_INVALID_DATA, None, None)
    else if cipher.value.header.magic != MAGIC then
      DecryptOutcome(ERROR_INVALID_DATA, None, None)
    else if capacity.value < cipher.value.header.length then
      DecryptOutcome(ERROR_INVALID_DATA, Some(cipher.value.header.length), None)
    else
      var header := cipher.value.header;
      var dataSize := cipherLength - HEADER_SIZE;
      var result := transform(cipher.value.body[..dataSize], Conjugate(header.key));
      var recovered := Overwrite(plaintext.value, result.data);
      if result.status != SUCCESS then
        DecryptOutcome(result.status, None, Some(result.data))
      else if Checksum(recovered[..header.length]) != header.checksum then
        DecryptOutcome(ERROR_INVALID_DATA, Some(header.length), Some(result.data))
      else
        DecryptOutcome(SUCCESS, Some(header.length), Some(result.data))
  }

  /** The plaintext buffer after a decryption with outcome `written`. */
  function AfterDecrypt(buffer: seq<byte>, written: Option<seq<byte>>): seq<byte>
    requires written.Some? ==> |written.value| <= |buffer|
  {
    if written.None? then buffer else Overwrite(buffer, written.value)
  }

  /** `hypercomplex_decrypt_data`. Beyond what the source states, the
      plaintext buffer must hold the `cipher_length - HEADER_SIZE` bytes the
      copy writes (`CopyFits`). */
  method DecryptData(cipher: CipherBuffer?, cipherLength: size, key: QuaternionCell?,
                     plaintext: array?<byte>, plainLength: SizeCell?, transform: BlockTransform)
    returns (status: int)
    requires cipher != null ==> cipherLength <= HEADER_SIZE + cipher.body.Length
    requires plaintext != null && plainLength != null ==> plainLength.value <= plaintext.Length
    requires plaintext != null && cipher != null ==> plaintext != cipher.body
    requires CopyFits(if cipher == null then None else Some(cipher.Value()), cipherLength, key != null,
                      BytesAt(plaintext), SizeAt(plainLength))
    requires PreservesLength(transform)
    modifies plainLength, plaintext
    ensures var outcome := Decrypt(if cipher == null then None else Some(cipher.Value()), cipherLength, key != null,
                                   old(BytesAt(plaintext)), old(SizeAt(plainLength)), transform);
            && status == outcome.status
            && (plainLength != null ==>
                  plainLength.value == if outcome.reportedLength.Some? then outcome.reportedLength.value
                                       else old(plainLength.value))
            && (plaintext != null ==> outcome.written.Some? ==> |outcome.written.value| <= plaintext.Length)
            && (plaintext != null ==> plaintext[..] == AfterDecrypt(old(plaintext[..]), outcome.written))
  {
    if cipher == null || key == null || plaintext == null || plainLength == null {
      return ERROR_NULL_PTR;
    }
    if cipherLength < HEADER_SIZE {
      return ERROR_INVALID_DATA;
    }
    var header := cipher.header;
    if header.magic != MAGIC {
      return ERROR_INVALID_DATA;
    }
    if plainLength.value < header.length {
      plainLength.value := header.length;
      return ERROR_INVALID_DATA;
    }
    var dataSize := cipherLength - HEADER_SIZE;
    ghost var before := plaintext[..];
    forall i | 0 <= i < dataSize {
      plaintext[i] := cipher.body[i];
    }
    assert plaintext[..dataSize] == cipher.body[..dataSize];
    assert plaintext[dataSize..] == before[dataSize..];
    var inverseKey := Conjugate(header.key);
    status := TransformInPlace(plaintext, dataSize, inverseKey, transform);
    if status == SUCCESS {
      plainLength.value := header.length;
      var checksum := ComputeChecksum(plaintext, header.length);
      if checksum != header.checksum {
        return ERROR_INVALID_DATA;
      }
    }
  }
}
