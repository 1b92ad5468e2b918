/** Bytes, the hex-digit classifier shared by both decoding paths, the output
    buffer the decoders append to, and the bit operations of Rust's `&`, `|`
    and `^` on the unsigned values that hold bytes and lane masks. */
module Bytes {

  /** One byte of input or output (Rust `u8`), as the value it holds. */
  type byte = b: int | 0 <= b < 0x100

  /** A Rust `u16`, as the value it holds. */
  type u16 = w: int | 0 <= w < 0x10000

  datatype Option<T> = None | Some(value: T)

  const PERCENT: byte := 0x25  // '%'
  const PLUS: byte := 0x2B     // '+'
  const SPACE: byte := 0x20    // ' '

  const DIGIT_0: byte := 0x30  // '0'
  const DIGIT_9: byte := 0x39  // '9'
  const UPPER_A: byte := 0x41  // 'A'
  const UPPER_F: byte := 0x46  // 'F'
  const LOWER_A: byte := 0x61  // 'a'
  const LOWER_F: byte := 0x66  // 'f'

  /** The caller's growable output buffer (`&mut Vec<u8>`). */
  class ByteVec {
    var elems: seq<byte>

    constructor ()
      ensures elems == []
    {
      elems := [];
    }
  }

  // ---------------------------------------------------------------------------
  // Hex digits

  /** A byte is a hex digit when it lies in one of the three ranges
      `0-9`, `A-F`, `a-f` (what `char::to_digit(16)` accepts for a byte). */
  predicate IsHexDigit(b: byte) {
    (DIGIT_0 <= b <= DIGIT_9) || (UPPER_A <= b <= UPPER_F) || (LOWER_A <= b <= LOWER_F)
  }

  /** The nibble a hex digit stands for. */
  function HexValue(b: byte): (v: byte)
    requires IsHexDigit(b)
    ensures v < 16
  {
    if b <= DIGIT_9 then b - DIGIT_0
    else if b <= UPPER_F then b - UPPER_A + 10
    else b - LOWER_A + 10
  }

  /** The upper-case hex digit of a nibble; the inverse of HexValue. */
  function UpperHexDigit(v: byte): (b: byte)
    requires v < 16
    ensures IsHexDigit(b) && HexValue(b) == v
    ensures !(LOWER_A <= b <= LOWER_F)
  {
    if v < 10 then DIGIT_0 + v else UPPER_A + (v - 10)
  }

  /** Lower-case form of a hex digit (letters only change). */
  function HexLower(b: byte): byte
    requires IsHexDigit(b)
  {
    if UPPER_A <= b <= UPPER_F then b + 0x20 else b
  }

  /** Hex digits are read case-insensitively, and two digits have the same
      value exactly when they are the same digit up to case. */
  lemma HexValueCaseInsensitive(a: byte, b: byte)
    requires IsHexDigit(a) && IsHexDigit(b)
    ensures HexValue(a) == HexValue(b) <==> HexLower(a) == HexLower(b)
  {
  }

  /** `h as u8 * 0x10 + l as u8`: the byte written by a `%hl` escape. */
  function Unhex(h: byte, l: byte): (r: byte)
    requires IsHexDigit(h) && IsHexDigit(l)
    ensures r / 16 == HexValue(h) && r % 16 == HexValue(l)
  {
    HexValue(h) * 0x10 + HexValue(l)
  }

  // ---------------------------------------------------------------------------
  // Bits

  function Pow2(n: nat): (r: nat)
    ensures r >= 1
  {
    if n == 0 then 1 else 2 * Pow2(n - 1)
  }

  /** Bit `i` of `m` (bit 0 is the least significant). */
  predicate Bit(m: nat, i: nat) {
    if i == 0 then m % 2 == 1 else Bit(m / 2, i - 1)
  }

  /** `a & b`. */
  function BitAnd(a: nat, b: nat): (r: nat)
    ensures r <= a && r <= b
  {
    if a == 0 || b == 0 then 0
    else 2 * BitAnd(a / 2, b / 2) + (if a % 2 == 1 && b % 2 == 1 then 1 else 0)
  }

  /** `a | b`. */
  function BitOr(a: nat, b: nat): (r: nat)
    ensures a <= r <= a + b && b <= r
  {
    if a == 0 then b
    else if b == 0 then a
    else 2 * BitOr(a / 2, b / 2) + (if a % 2 == 1 || b % 2 == 1 then 1 else 0)
  }

  /** `a ^ b`. */
  function BitXor(a: nat, b: nat): (r: nat)
    ensures r <= a + b
  {
    if a == 0 then b
    else if b == 0 then a
    else 2 * BitXor(a / 2, b / 2) + (if (a % 2 == 1) != (b % 2 == 1) then 1 else 0)
  }

  lemma {:induction false} ZeroBit(i: nat)
    ensures !Bit(0, i)
  {
    if i > 0 {
      ZeroBit(i - 1);
    }
  }

  /** A bit of `a & b` is set exactly when it is set in both. */
  lemma {:induction false} BitAndBit(a: nat, b: nat, i: nat)
    ensures Bit(BitAnd(a, b), i) == (Bit(a, i) && Bit(b, i))
  {
    if a == 0 || b == 0 {
      ZeroBit(i);
    } else if i > 0 {
      BitAndBit(a / 2, b / 2, i - 1);
    }
  }

  /** A value below `2^n` has no bit at `n` or above. */
  lemma {:induction false} BitBelow(m: nat, n: nat, i: nat)
    requires m < Pow2(n) && n <= i
    ensures !Bit(m, i)
  {
    if n == 0 {
      ZeroBit(i);
    } else if i > 0 {
      BitBelow(m / 2, n - 1, i - 1);
    }
  }

  /** A value below `2^(n+1)` whose bit `n` is clear is below `2^n`. */
  lemma {:induction false} TopBitClear(m: nat, n: nat)
    requires m < Pow2(n + 1) && !Bit(m, n)
    ensures m < Pow2(n)
  {
    if n > 0 {
      TopBitClear(m / 2, n - 1);
    }
  }

  /** `m & (1 << n) > 0` tests bit `n`. */
  lemma {:induction false} AndPow2(m: nat, n: nat)
    ensures (BitAnd(m, Pow2(n)) > 0) == Bit(m, n)
  {
    if m == 0 {
      ZeroBit(n);
    } else if n > 0 {
      AndPow2(m / 2, n - 1);
    }
  }

  /** Masking with `n` one bits keeps a value below `2^n` whole, on either side. */
  lemma {:induction false} AndOnes(n: nat, x: nat)
    requires x < Pow2(n)
    ensures BitAnd(Pow2(n) - 1, x) == x && BitAnd(x, Pow2(n) - 1) == x
  {
    if x != 0 {
      AndOnes(n - 1, x / 2);
    }
  }

  /** `|` and `^` keep values below `2^n`. */
  lemma {:induction false} OrXorBelow(a: nat, b: nat, n: nat)
    requires a < Pow2(n) && b < Pow2(n)
    ensures BitOr(a, b) < Pow2(n) && BitXor(a, b) < Pow2(n)
  {
    if a != 0 && b != 0 {
      OrXorBelow(a / 2, b / 2, n - 1);
    }
  }

  /** `x ^ x == 0`. */
  lemma {:induction false} XorSelf(x: nat)
    ensures BitXor(x, x) == 0
  {
    if x != 0 {
      XorSelf(x / 2);
    }
  }

  lemma {:induction false} Pow2Mono(a: nat, b: nat)
    requires a <= b
    ensures Pow2(a) <= Pow2(b)
    decreases b - a
  {
    if a < b {
      Pow2Mono(a, b - 1);
    }
  }

  lemma Pow2Values()
    ensures Pow2(4) == 0x10 && Pow2(8) == 0x100 && Pow2(15) == 0x8000 && Pow2(14) == 0x4000 && Pow2(16) == 0x10000
  {
    assert Pow2(4) == 0x10;
    assert Pow2(8) == 0x100;
  }

  /** `x & x == x`. */
  lemma {:induction false} AndSelf(x: nat)
    ensures BitAnd(x, x) == x
  {
    if x != 0 {
      AndSelf(x / 2);
    }
  }

  /** `x | x == x`. */
  lemma {:induction false} OrSelf(x: nat)
    ensures BitOr(x, x) == x
  {
    if x != 0 {
      OrSelf(x / 2);
    }
  }

  /** `(a << n) | b == (a << n) + b` when `b` fits in the low `n` bits. */
  lemma {:induction false} OrShifted(a: nat, b: nat, n: nat)
    requires b < Pow2(n)
    ensures BitOr(a * Pow2(n), b) == a * Pow2(n) + b
  {
    var hi := a * Pow2(n);
    if n > 0 && hi != 0 && b != 0 {
      var half := a * Pow2(n - 1);
      assert hi == 2 * half;
      OrShifted(a, b / 2, n - 1);
      assert BitOr(hi, b) == 2 * BitOr(half, b / 2) + b % 2;
    }
  }

  /** The number of set bits of `m` below bit `n`. */
  function CountBits(m: nat, n: nat): (k: nat)
    ensures k <= n
  {
    if n == 0 then 0 else CountBits(m, n - 1) + (if Bit(m, n - 1) then 1 else 0)
  }

  /** `popcnt` of a 16-bit mask. */
  function PopCount(m: u16): (k: nat)
    ensures k <= 16
  {
    CountBits(m, 16)
  }
}
