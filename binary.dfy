/** Bit-width helpers of `lil/Binary.hpp`: the leading-zero count, the number
    of bits a value needs, and the smallest standard integer width that holds
    a number of bits. */
module Binary {

  /** `Bit_Count_v<T>`: the number of bits in a type of `sizeInBytes` bytes. */
  function BitCount(sizeInBytes: nat): nat
  {
    sizeInBytes * 8
  }

  /** `Bit_Count_v<uint64_t>`. */
  const Uint64Bits: nat := BitCount(8)

  /** One more than the largest `uint64_t`. */
  const Uint64Modulus: nat := Pow2(Uint64Bits)

  function Pow2(k: nat): (p: nat)
    ensures p >= 1
  {
    if k == 0 then 1 else 2 * Pow2(k - 1)
  }

  /** `clz` for a `width`-bit unsigned value: the number of zero bits above
      the highest set bit. The builtin is undefined for 0, so 0 is excluded. */
  function Clz(v: nat, width: nat): (n: nat)
    requires 0 < v < Pow2(width)
    ensures n < width
    ensures Pow2(width - 1 - n) <= v < Pow2(width - n)
    decreases width
  {
    if Pow2(width - 1) <= v then 0 else 1 + Clz(v, width - 1)
  }

  /** `bitsToRepresent(value)`: `Bit_Count_v<uint64_t> - clz(value)`, the
      position of the highest set bit plus one. */
  function BitsToRepresent(v: nat): (r: int)
    requires 0 < v < Uint64Modulus
    ensures 1 <= r <= 64
    ensures Pow2(r - 1) <= v < Pow2(r)
  {
    Uint64Bits - Clz(v, Uint64Bits)
  }

  /** The number of bits is unique: any `r` with `2^(r-1) <= v < 2^r` is the
      one `BitsToRepresent` returns. */
  lemma {:induction false} BitsToRepresentUnique(v: nat, r: nat)
    requires 0 < v < Uint64Modulus
    requires 1 <= r && Pow2(r - 1) <= v < Pow2(r)
    ensures BitsToRepresent(v) == r
  {
    var b := BitsToRepresent(v);
    if b < r {
      Pow2Monotone(b, r - 1);
    } else if r < b {
      Pow2Monotone(r, b - 1);
    }
  }

  lemma {:induction false} Pow2Monotone(a: nat, b: nat)
    requires a <= b
    ensures Pow2(a) <= Pow2(b)
    decreases b
  {
    if a < b {
      Pow2Monotone(a, b - 1);
    }
  }

  /** The integer widths `intBitsToFit` chooses from. */
  predicate IsIntWidth(w: int)
  {
    w == 8 || w == 16 || w == 32 || w == 64
  }

  /** `intBitsToFit(value)`: the smallest of 8, 16, 32 and 64 that is at least
      `value`, and -1 when no standard width is large enough. */
  function IntBitsToFit(value: nat): (r: int)
    requires value < Uint64Modulus
    ensures value <= 64 ==> IsIntWidth(r) && value <= r
    ensures forall w :: IsIntWidth(w) && value <= w ==> r <= w
    ensures r == -1 <==> value > 64
  {
    if value <= 8 then 8
    else if value <= 16 then 16
    else if value <= 32 then 32
    else if value <= 64 then 64
    else -1
  }

  /** A larger request never gets a smaller width. */
  lemma IntBitsToFitMonotone(a: nat, b: nat)
    requires a <= b <= 64
    ensures IntBitsToFit(a) <= IntBitsToFit(b)
  {
  }

  /** A width that was chosen is its own best fit. */
  lemma IntBitsToFitIdempotent(v: nat)
    requires v <= 64
    ensures IntBitsToFit(IntBitsToFit(v)) == IntBitsToFit(v)
  {
  }
}
