/**
 * JavaScript's 32-bit view of numbers, as its `^` operator uses it: both operands are taken modulo 2^32
 * (ToInt32 and ToUint32 agree on these bits), XOR-ed bit by bit, and the result read back as a signed
 * 32-bit number.
 */
module JsInt32 {
  const TWO_32: int := 0x1_0000_0000
  const TWO_31: int := 0x8000_0000

  function Pow2(n: nat): (r: nat)
    ensures r >= 1
  {
    if n == 0 then 1 else 2 * Pow2(n - 1)
  }

  lemma {:induction false} Pow2Add(a: nat, b: nat)
    ensures Pow2(a + b) == Pow2(a) * Pow2(b)
  {
    if a > 0 {
      Pow2Add(a - 1, b);
    }
  }

  lemma Pow2Of32()
    ensures Pow2(32) == TWO_32
  {
    assert Pow2(4) == 16;
    Pow2Add(4, 4);
    Pow2Add(8, 8);
    Pow2Add(16, 16);
  }

  /** ToUint32: the number modulo 2^32. */
  function Uint32(x: int): (r: nat)
    ensures r < TWO_32
    ensures (x - r) % TWO_32 == 0
  {
    x % TWO_32
  }

  /** The signed 32-bit number whose bits are `u`. */
  function Int32(u: nat): (r: int)
    requires u < TWO_32
    ensures -TWO_31 <= r < TWO_31
    ensures Uint32(r) == u
  {
    if u >= TWO_31 then u - TWO_32 else u
  }

  /** The XOR of the low `n` bits of `a` and `b`. */
  function XorBits(a: nat, b: nat, n: nat): (r: nat)
    ensures r < Pow2(n)
  {
    if n == 0 then 0
    else 2 * XorBits(a / 2, b / 2, n - 1) + (if a % 2 == b % 2 then 0 else 1)
  }

  /** `a ^ b` on JavaScript numbers. */
  function Xor(a: int, b: int): (r: int)
    ensures -TWO_31 <= r < TWO_31
    ensures Uint32(r) == XorBits(Uint32(a), Uint32(b), 32)
  {
    Pow2Of32();
    Int32(XorBits(Uint32(a), Uint32(b), 32))
  }

  /** XOR with zero keeps a number that fits in `n` bits. */
  lemma {:induction false} XorBitsZero(u: nat, n: nat)
    requires u < Pow2(n)
    ensures XorBits(0, u, n) == u
  {
    if n > 0 {
      XorBitsZero(u / 2, n - 1);
    }
  }

  lemma {:induction false} XorBitsCommutes(a: nat, b: nat, n: nat)
    ensures XorBits(a, b, n) == XorBits(b, a, n)
  {
    if n > 0 {
      XorBitsCommutes(a / 2, b / 2, n - 1);
    }
  }

  /** The low bit and the remaining bits of an XOR. */
  lemma XorBitsStep(a: nat, b: nat, n: nat)
    requires n > 0
    ensures XorBits(a, b, n) / 2 == XorBits(a / 2, b / 2, n - 1)
    ensures XorBits(a, b, n) % 2 == (if a % 2 == b % 2 then 0 else 1)
  {
  }

  lemma {:induction false} XorBitsAssociates(a: nat, b: nat, c: nat, n: nat)
    ensures XorBits(XorBits(a, b, n), c, n) == XorBits(a, XorBits(b, c, n), n)
  {
    if n > 0 {
      XorBitsStep(a, b, n);
      XorBitsStep(b, c, n);
      XorBitsAssociates(a / 2, b / 2, c / 2, n - 1);
    }
  }

  /** XOR-ing in `x` then `y` is XOR-ing in `y` then `x`. */
  lemma XorBitsSwap(a: nat, x: nat, y: nat, n: nat)
    ensures XorBits(XorBits(a, x, n), y, n) == XorBits(XorBits(a, y, n), x, n)
  {
    XorBitsAssociates(a, x, y, n);
    XorBitsAssociates(a, y, x, n);
    XorBitsCommutes(x, y, n);
  }
}
