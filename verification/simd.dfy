/** The SSE2/SSSE3/SSE4.1 intrinsics both block decoders use, each as a pure
    function on the sixteen byte lanes of a 128-bit register (lane 0 is the
    lowest-addressed byte). Comparison results are lane masks: 0xFF where the
    comparison holds, 0x00 elsewhere. */
module Simd {
  import opened Bytes

  type M128 = s: seq<byte> | |s| == 16 witness Zero()

  function Zero(): seq<byte> {
    seq(16, _ => 0)
  }

  /** A lane of a comparison mask. */
  function LaneMask(b: bool): byte {
    if b then 0xFF else 0
  }

  /** Bit 7 of a lane, the bit `blendv`, `pshufb` and `movemask` look at. */
  predicate TopBit(b: byte) {
    b >= 0x80
  }

  /** A byte read as `i8`. */
  function AsI8(b: byte): int {
    if b < 0x80 then b else b - 0x100
  }

  /** A `u8` result that wraps around. */
  function Wrap(x: int): byte {
    x % 0x100
  }

  /** `_mm_loadu_si128`: the first sixteen bytes of a slice. */
  function LoadU(s: seq<byte>): M128
    requires |s| >= 16
  {
    s[..16]
  }

  /** `_mm_set1_epi8`. */
  function Set1(x: byte): M128 {
    seq(16, _ => x)
  }

  /** `_mm_set_epi8(15, 14, ..., 1, 0)`: lane `i` holds `i`. */
  function Identity(): M128 {
    seq(16, i requires 0 <= i < 16 => i)
  }

  /** `_mm_cmpeq_epi8`. */
  function CmpEq(a: M128, b: M128): M128 {
    seq(16, i requires 0 <= i < 16 => LaneMask(a[i] == b[i]))
  }

  /** `_mm_cmplt_epi8`: a signed comparison. */
  function CmpLt(a: M128, b: M128): M128 {
    seq(16, i requires 0 <= i < 16 => LaneMask(AsI8(a[i]) < AsI8(b[i])))
  }

  /** `_mm_cmpgt_epi8`: a signed comparison. */
  function CmpGt(a: M128, b: M128): M128 {
    seq(16, i requires 0 <= i < 16 => LaneMask(AsI8(a[i]) > AsI8(b[i])))
  }

  /** `&` on bytes. */
  function AndByte(a: byte, b: byte): byte {
    BitAnd(a, b)
  }

  /** `|` on bytes. */
  function OrByte(a: byte, b: byte): byte {
    OrXorBelow(a, b, 8);
    BitOr(a, b)
  }

  /** `^` on bytes. */
  function XorByte(a: byte, b: byte): byte {
    OrXorBelow(a, b, 8);
    BitXor(a, b)
  }

  /** `_mm_and_si128`. */
  function And(a: M128, b: M128): M128 {
    seq(16, i requires 0 <= i < 16 => AndByte(a[i], b[i]))
  }

  /** `_mm_or_si128`. */
  function Or(a: M128, b: M128): M128 {
    seq(16, i requires 0 <= i < 16 => OrByte(a[i], b[i]))
  }

  /** `_mm_xor_si128`. */
  function Xor(a: M128, b: M128): M128 {
    seq(16, i requires 0 <= i < 16 => XorByte(a[i], b[i]))
  }

  /** `_mm_add_epi8`: lane-wise, wrapping. */
  function Add(a: M128, b: M128): M128 {
    seq(16, i requires 0 <= i < 16 => Wrap(a[i] as int + b[i]))
  }

  /** `_mm_sub_epi8`: lane-wise, wrapping. */
  function Sub(a: M128, b: M128): M128 {
    seq(16, i requires 0 <= i < 16 => Wrap(a[i] as int - b[i]))
  }

  /** `_mm_srli_si128(a, k)`: the register shifted towards lane 0 by `k`
      bytes; the top `k` lanes become 0. */
  function Srli(a: M128, k: nat): M128 {
    seq(16, i requires 0 <= i < 16 => if i + k < 16 then a[i + k] else 0)
  }

  /** `_mm_slli_si128(a, k)`: the register shifted away from lane 0 by `k`
      bytes; the bottom `k` lanes become 0. */
  function Slli(a: M128, k: nat): M128 {
    seq(16, i requires 0 <= i < 16 => if i >= k then a[i - k] else 0)
  }

  /** `_mm_slli_epi16(a, 4)`: each 16-bit lane (an even byte lane below,
      the odd one above it) shifted left by a nibble, so the top nibble of
      an even lane moves into the bottom of the odd lane above. */
  function SlliEpi16By4(a: M128): M128 {
    seq(16, i requires 0 <= i < 16 =>
      (a[i] % 0x10) * 0x10 + (if i % 2 == 1 then a[i - 1] / 0x10 else 0))
  }

  /** `_mm_blendv_epi8(a, b, mask)`: `b` where the top bit of the mask lane
      is set, `a` elsewhere. */
  function Blendv(a: M128, b: M128, mask: M128): M128 {
    seq(16, i requires 0 <= i < 16 => if TopBit(mask[i]) then b[i] else a[i])
  }

  /** `_mm_shuffle_epi8(a, idx)` (`pshufb`): lane `j` is 0 when bit 7 of
      `idx[j]` is set, otherwise lane `idx[j] & 15` of `a`. */
  function Shuffle(a: M128, idx: M128): M128 {
    seq(16, j requires 0 <= j < 16 => if TopBit(idx[j]) then 0 else a[idx[j] % 16])
  }

  /** `_mm_test_all_zeros(a, mask) > 0`. */
  predicate TestAllZeros(a: M128, mask: M128) {
    forall i :: 0 <= i < 16 ==> AndByte(a[i], mask[i]) == 0
  }

  /** The top bits of lanes `k .. 15`, lane `k` in bit 0. */
  function MoveMaskFrom(a: M128, k: nat): (m: nat)
    requires k <= 16
    ensures m < Pow2(16 - k)
    decreases 16 - k
  {
    if k == 16 then 0 else (if TopBit(a[k]) then 1 else 0) + 2 * MoveMaskFrom(a, k + 1)
  }

  /** `_mm_movemask_epi8`: bit `i` is the top bit of lane `i`. */
  function MoveMask(a: M128): (m: u16)
    ensures forall i :: 0 <= i < 16 ==> (Bit(m, i) <==> TopBit(a[i]))
  {
    forall i | 0 <= i < 16 {
      MoveMaskBit(a, 0, i);
    }
    Pow2Values();
    MoveMaskFrom(a, 0)
  }

  lemma {:induction false} MoveMaskBit(a: M128, k: nat, i: nat)
    requires k + i < 16
    ensures Bit(MoveMaskFrom(a, k), i) == TopBit(a[k + i])
    decreases i
  {
    var b := if TopBit(a[k]) then 1 else 0;
    var rest := MoveMaskFrom(a, k + 1);
    assert MoveMaskFrom(a, k) == b + 2 * rest;
    HalfStep(b, rest);
    if i > 0 {
      MoveMaskBit(a, k + 1, i - 1);
    }
  }

  lemma HalfStep(b: nat, rest: nat)
    requires b < 2
    ensures (b + 2 * rest) % 2 == b && (b + 2 * rest) / 2 == rest
  {
  }

  // ---------------------------------------------------------------------------
  // Lane masks under the bitwise operations

  lemma MaskAnd(p: bool, x: byte)
    ensures AndByte(LaneMask(p), x) == (if p then x else 0)
    ensures AndByte(x, LaneMask(p)) == (if p then x else 0)
  {
    if p {
      AndOnes(8, x);
    }
  }

  lemma MaskOr(p: bool, q: bool)
    ensures OrByte(LaneMask(p), LaneMask(q)) == LaneMask(p || q)
  {
  }

  lemma MaskXor(p: bool, q: bool)
    ensures XorByte(LaneMask(p), LaneMask(q)) == LaneMask(p != q)
  {
    XorSelf(LaneMask(p));
  }

  lemma MaskTop(p: bool)
    ensures TopBit(LaneMask(p)) == p
  {
  }
}
