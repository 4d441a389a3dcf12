/** Machine integer widths of the interpreter and the two result wrappers every
    other module uses: `Option` for the source's own `Option` returns, and
    `Checked` for computations that can panic (an `unwrap` of `None`, a
    `todo!()`, an out-of-range slice or a debug-build arithmetic overflow).
 */
module Bytes {

  /** Rust `u8`. */
  type byte = x: int | 0 <= x < 0x100

  /** Rust `u16`. */
  type u16 = x: int | 0 <= x < 0x1_0000

  /** Rust `u32`, the pixel type of the frame buffer. */
  type u32 = x: int | 0 <= x < 0x1_0000_0000

  datatype Option<+T> = None | Some(value: T)

  /** The result of a computation that either yields a value or panics. */
  datatype Checked<+T> = Ok(value: T) | Panic

  /** The three bitwise operators of the interpreter. */
  datatype BitOp = OrBits | AndBits | XorBits

  /** The operator on single bits. */
  function Combine(op: BitOp, p: nat, q: nat): nat
    requires p < 2 && q < 2
  {
    match op
    case OrBits => if p + q > 0 then 1 else 0
    case AndBits => p * q
    case XorBits => (p + q) % 2
  }

  /** The operator applied to the low `k` bits of `a` and `b`, least significant
      bit first. */
  function Bits(op: BitOp, a: nat, b: nat, k: nat): (r: nat)
    ensures r < Pow2(k)
    decreases k
  {
    if k == 0 then 0 else Combine(op, a % 2, b % 2) + 2 * Bits(op, a / 2, b / 2, k - 1)
  }

  /** Eight bits make a byte. */
  lemma ByteWidth()
    ensures Pow2(8) == 0x100
  {
    assert Pow2(4) == 16;
  }

  /** Bitwise `|` on bytes. */
  function BitOr(a: byte, b: byte): byte {
    ByteWidth();
    Bits(OrBits, a, b, 8)
  }

  /** Bitwise `&` on bytes. */
  function BitAnd(a: byte, b: byte): byte {
    ByteWidth();
    Bits(AndBits, a, b, 8)
  }

  /** Bitwise `^` on bytes. */
  function BitXor(a: byte, b: byte): byte {
    ByteWidth();
    Bits(XorBits, a, b, 8)
  }

  /** A value combined with itself: `^` clears it, `|` and `&` keep it. */
  lemma {:induction false} BitsSelf(a: nat, k: nat)
    requires a < Pow2(k)
    ensures Bits(XorBits, a, a, k) == 0
    ensures Bits(OrBits, a, a, k) == a && Bits(AndBits, a, a, k) == a
    decreases k
  {
    if k > 0 {
      BitsSelf(a / 2, k - 1);
    }
  }

  /** `^ b` undoes `^ b`. */
  lemma {:induction false} XorInvolution(a: nat, b: nat, k: nat)
    requires a < Pow2(k)
    ensures Bits(XorBits, Bits(XorBits, a, b, k), b, k) == a
    decreases k
  {
    if k > 0 {
      var c := (a % 2 + b % 2) % 2;
      var rest := Bits(XorBits, a / 2, b / 2, k - 1);
      var r := c + 2 * rest;
      assert r % 2 == c && r / 2 == rest;
      XorInvolution(a / 2, b / 2, k - 1);
    }
  }

  /** `a & m` has no bit outside `m`: masking it again changes nothing, and it
      is at most `m`. */
  lemma {:induction false} AndUnderMask(a: nat, m: nat, k: nat)
    requires m < Pow2(k)
    ensures Bits(AndBits, Bits(AndBits, a, m, k), m, k) == Bits(AndBits, a, m, k)
    ensures Bits(AndBits, a, m, k) <= m
    decreases k
  {
    if k > 0 {
      var c := (a % 2) * (m % 2);
      var rest := Bits(AndBits, a / 2, m / 2, k - 1);
      var r := c + 2 * rest;
      assert r % 2 == c && r / 2 == rest;
      AndUnderMask(a / 2, m / 2, k - 1);
      assert (c * (m % 2)) == c;
    }
  }

  /** Division by a nibble, byte or 12-bit radix is determined by any quotient
      and remainder that fit: the step every opcode field extraction rests on. */
  lemma DivMod(a: int, d: int, q: int, r: int)
    requires d == 0x10 || d == 0x100 || d == 0x1000
    requires 0 <= r < d && a == q * d + r
    ensures a / d == q && a % d == r
  {
    if d == 0x10 {
      assert a == q * 0x10 + r;
    } else if d == 0x100 {
      assert a == q * 0x100 + r;
    } else {
      assert a == q * 0x1000 + r;
    }
  }

  /** 2 to the power k. */
  function Pow2(k: nat): (r: nat)
    ensures r >= 1
  {
    if k == 0 then 1 else 2 * Pow2(k - 1)
  }

  /** Bit k of b, counting from the least significant bit: `b >> k & 1`. */
  function BitOf(b: byte, k: nat): (r: byte)
    ensures r == 0 || r == 1
  {
    (b / Pow2(k)) % 2
  }
}
