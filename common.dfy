/** Shared vocabulary of the hypercomplex wrapper: bytes, return codes,
    optional values (a pointer that may be NULL), and the size_t model. */
module Common {

  /** One byte of a caller's buffer. */
  type byte = bv8

  /** The four return codes of the wrapper (Arm.h:33-36). Statuses are plain
      integers because the external block transform may return any int. */
  const SUCCESS: int := 0
  const ERROR_NULL_PTR: int := -1
  const ERROR_DIVIDE_ZERO: int := -2
  const ERROR_INVALID_DATA: int := -3

  /** size_t on the 64-bit target. */
  const TWO_64: int := 0x1_0000_0000_0000_0000
  const SIZE_MAX: int := TWO_64 - 1
  type size = n: nat | n < TWO_64

  /** No C object is larger than PTRDIFF_MAX bytes, so a length that
      describes a real buffer never exceeds this bound. */
  const MAX_OBJECT_SIZE: nat := 0x7FFF_FFFF_FFFF_FFFF

  datatype Option<+T> = None | Some(value: T)

  /** A `size_t` object in memory; a `size_t*` argument is a `SizeCell?`. */
  class SizeCell {
    var value: size

    constructor (v: size)
      ensures value == v
    {
      value := v;
    }
  }

  /** The value behind a possibly-NULL `size_t*`. */
  function SizeAt(cell: SizeCell?): Option<size>
    reads cell
  {
    if cell == null then None else Some(cell.value)
  }

  /** The contents of a possibly-NULL byte buffer. */
  function BytesAt(a: array?<byte>): Option<seq<byte>>
    reads a
  {
    if a == null then None else Some(a[..])
  }

  /** `n` zero bytes, as `memset(p, 0, n)` writes them. */
  function Zeros(n: nat): (r: seq<byte>)
    ensures |r| == n
    ensures forall i :: 0 <= i < n ==> r[i] == 0
  {
    if n == 0 then [] else Zeros(n - 1) + [0]
  }
}
