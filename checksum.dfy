/** The integrity check of the framing layer, `compute_checksum`
    (Arm.h:148-157): a 32-bit accumulator that starts at 0 and, for each byte
    in order, shifts left by one (dropping the top bit) and xors the byte in. */
module Checksums {
  import opened Common

  /** One iteration of the accumulator loop. */
  function Step(checksum: bv32, b: byte): bv32
  {
    (checksum << 1) ^ (b as bv32)
  }

  /** The accumulator's value after consuming all of `s`. */
  function Checksum(s: seq<byte>): bv32
  {
    if |s| == 0 then 0 else Step(Checksum(s[..|s| - 1]), s[|s| - 1])
  }

  /** `x` after `n` single left shifts of a uint32, each written as a
      doubling modulo 2^32. */
  function ShiftOut(x: bv32, n: nat): bv32
  {
    if n == 0 then x else var y := ShiftOut(x, n - 1); y + y
  }

  /** The loop of `compute_checksum`: reads the first `length` bytes of
      `data` and nothing else. */
  method ComputeChecksum(data: array<byte>, length: nat) returns (checksum: bv32)
    requires length <= data.Length
    ensures checksum == Checksum(data[..length])
  {
    checksum := 0;
    var i := 0;
    while i < length
      invariant i <= length
      invariant checksum == Checksum(data[..i])
    {
      assert data[..i + 1][..i] == data[..i];
      checksum := Step(checksum, data[i]);
      i := i + 1;
    }
  }

  /** A one-bit left shift of a uint32 is a doubling modulo 2^32. */
  lemma ShiftLeftDoubles(x: bv32)
    ensures x << 1 == x + x
  {
  }

  /** One accumulator step applied to a xor of two states. */
  lemma StepOverXor(a: bv32, c: bv32, b: byte)
    ensures Step(a ^ c, b) == (a + a) ^ Step(c, b)
  {
  }

  lemma {:induction false} ShiftOutAdd(x: bv32, a: nat, b: nat)
    ensures ShiftOut(x, a + b) == ShiftOut(ShiftOut(x, a), b)
  {
    if b > 0 {
      ShiftOutAdd(x, a, b - 1);
    }
  }

  lemma ShiftOutCompose(x: bv32, a: nat, b: nat, y: bv32, z: bv32)
    requires ShiftOut(x, a) == y && ShiftOut(y, b) == z
    ensures ShiftOut(x, a + b) == z
  {
    ShiftOutAdd(x, a, b);
  }

  lemma {:induction false} ShiftOutOfZero(n: nat)
    ensures ShiftOut(0, n) == 0
  {
    if n > 0 {
      ShiftOutOfZero(n - 1);
    }
  }

  lemma ShiftOutOne(x: bv32)
    ensures ShiftOut(x, 1) == x * 2
  {
    assert ShiftOut(x, 0) == x;
  }

  lemma ShiftOutTwo(x: bv32)
    ensures ShiftOut(x, 2) == x * 4
  {
    ShiftOutOne(x);
    ShiftOutOne(x * 2);
    ShiftOutCompose(x, 1, 1, x * 2, (x * 2) * 2);
  }

  lemma ShiftOutFour(x: bv32)
    ensures ShiftOut(x, 4) == x * 16
  {
    ShiftOutTwo(x);
    ShiftOutTwo(x * 4);
    ShiftOutCompose(x, 2, 2, x * 4, (x * 4) * 4);
  }

  lemma ShiftOutEight(x: bv32)
    ensures ShiftOut(x, 8) == x * 256
  {
    ShiftOutFour(x);
    ShiftOutFour(x * 16);
    ShiftOutCompose(x, 4, 4, x * 16, (x * 16) * 16);
  }

  lemma ShiftOutSixteen(x: bv32)
    ensures ShiftOut(x, 16) == x * 65536
  {
    ShiftOutEight(x);
    ShiftOutEight(x * 256);
    ShiftOutCompose(x, 8, 8, x * 256, (x * 256) * 256);
  }

  /** After 32 shifts every bit of a uint32 is gone. */
  lemma ShiftOutVanishes(x: bv32, n: nat)
    requires n >= 32
    ensures ShiftOut(x, n) == 0
  {
    ShiftOutSixteen(x);
    ShiftOutSixteen(x * 65536);
    ShiftOutCompose(x, 16, 16, x * 65536, (x * 65536) * 65536);
    ShiftOutAdd(x, 32, n - 32);
    ShiftOutOfZero(n - 32);
  }

  /** Consuming `p` and then `s`: what `p` left behind is shifted left once
      per byte of `s`, and the rest is the checksum of `s` alone. */
  lemma {:induction false} ChecksumAppend(p: seq<byte>, s: seq<byte>)
    ensures Checksum(p + s) == ShiftOut(Checksum(p), |s|) ^ Checksum(s)
    decreases |s|
  {
    if |s| == 0 {
      assert p + s == p;
    } else {
      var s', b := s[..|s| - 1], s[|s| - 1];
      assert Checksum(p + s) == Step(Checksum(p + s'), b) by {
        assert (p + s)[..|p + s| - 1] == p + s';
      }
      ChecksumAppend(p, s');
      StepOverXor(ShiftOut(Checksum(p), |s'|), Checksum(s'), b);
    }
  }

  /** Only the last 32 bytes count: any prefix before them is shifted out,
      so inputs that differ only there collide. */
  lemma ChecksumForgetsOldBytes(p: seq<byte>, s: seq<byte>)
    requires |s| >= 32
    ensures Checksum(p + s) == Checksum(s)
  {
    ChecksumAppend(p, s);
    ShiftOutVanishes(Checksum(p), |s|);
  }

  /** Two different 33-byte messages with the same checksum. */
  lemma ChecksumCollision()
    ensures [1 as byte] + Zeros(32) != [2 as byte] + Zeros(32)
    ensures Checksum([1 as byte] + Zeros(32)) == Checksum([2 as byte] + Zeros(32))
  {
    assert ([1 as byte] + Zeros(32))[0] != ([2 as byte] + Zeros(32))[0];
    ChecksumForgetsOldBytes([1 as byte], Zeros(32));
    ChecksumForgetsOldBytes([2 as byte], Zeros(32));
  }
}
