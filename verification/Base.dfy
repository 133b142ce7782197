/** Fixed-width integers, result codes and the assumptions about the C platform
    that the other modules share. */
module Base {

  const TWO_16: int := 0x1_0000
  const TWO_31: int := 0x8000_0000
  const TWO_32: int := 0x1_0000_0000
  const TWO_63: int := 0x8000_0000_0000_0000
  const TWO_64: int := 0x1_0000_0000_0000_0000

  type byte = x: int | 0 <= x < 256
  type uint16 = x: int | 0 <= x < TWO_16
  type uint32 = x: int | 0 <= x < TWO_32
  type uint64 = x: int | 0 <= x < TWO_64
  /** size_t of a 64-bit platform */
  type size_t = x: int | 0 <= x < TWO_64
  type int64 = x: int | -TWO_63 <= x < TWO_63

  /** No object is larger than PTRDIFF_MAX bytes: realloc refuses more. */
  const PTRDIFF_MAX: int := TWO_63 - 1

  /** The codes of `enum see_error` that the modelled functions return.
      UNDEFINED is not one of them: the model returns it where the C program runs
      into undefined behaviour, such as a read or a write outside an allocation, on
      which what it does next depends. Nothing is promised about it from there on. */
  datatype Ret =
    | SUCCESS
    | INVALID_ARGUMENT
    | ERROR_RUNTIME
    | ERROR_INDEX
    | ERROR_MSG_PART_TYPE
    | ERROR_MSG_INVALID
    | ERROR_TIMEOUT
    | UNDEFINED

  datatype Option<+T> = None | Some(value: T)

  /** Conversion of an integer to an unsigned type of `modulus` values. */
  function Wrap(x: int, modulus: int): (r: int)
    requires modulus > 0
    ensures 0 <= r < modulus
    ensures 0 <= x < modulus ==> r == x
  {
    x % modulus
  }

  /** What a conversion takes away or adds is a multiple of the number of values. */
  lemma WrapCongruent(x: int, modulus: int) returns (k: int)
    requires modulus > 0
    ensures x == Wrap(x, modulus) + k * modulus
  {
    k := x / modulus;
  }

  /** Unsigned addition may wrap at every step or once at the end. */
  lemma WrapAdd(a: nat, b: nat)
    ensures Wrap(Wrap(a, TWO_32) + b, TWO_32) == Wrap(a + b, TWO_32)
  {
  }
}
