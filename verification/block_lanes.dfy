/** The lane stages both block decoders spell out identically: pick the two
    lanes after each marked `%`, classify them as hex digits, and merge the
    two nibbles of an escape into the lane of its `%`. */
module BlockLanes {
  import opened Bytes
  import opened Simd
  import opened Fallback
  import opened ShuffleMask
  import opened Compaction

  /** Every lane of `m` is 0x00 or 0xFF. */
  predicate IsMask(m: M128) {
    forall i :: 0 <= i < 16 ==> m[i] == 0 || m[i] == 0xFF
  }

  /** Lane `i` is one or two lanes after a marked lane. */
  predicate AfterMark(marks: M128, i: nat)
    requires i < 16
  {
    (i >= 1 && marks[i - 1] == 0xFF) || (i >= 2 && marks[i - 2] == 0xFF)
  }

  /** `first_and_second`: the chunk's bytes in the two lanes after each
      marked lane (`mask1`, `mask2`), zero elsewhere. */
  function DigitCandidates(chunk: M128, marks: M128): M128 {
    var mask1 := Slli(marks, 1);
    var first1 := And(chunk, mask1);
    var mask2 := Slli(marks, 2);
    var second1 := And(chunk, mask2);
    Or(first1, second1)
  }

  lemma DigitCandidatesLanes(chunk: M128, marks: M128)
    requires IsMask(marks)
    ensures forall i :: 0 <= i < 16 ==>
              DigitCandidates(chunk, marks)[i] == if AfterMark(marks, i) then chunk[i] else 0
  {
    forall i | 0 <= i < 16
      ensures DigitCandidates(chunk, marks)[i] == if AfterMark(marks, i) then chunk[i] else 0
    {
      var p := i >= 1 && marks[i - 1] == 0xFF;
      var q := i >= 2 && marks[i - 2] == 0xFF;
      assert Slli(marks, 1)[i] == LaneMask(p);
      assert Slli(marks, 2)[i] == LaneMask(q);
      MaskAnd(p, chunk[i]);
      MaskAnd(q, chunk[i]);
      OrSelf(chunk[i]);
    }
  }

  /** One digit class: a lane mask of the lanes strictly between `below` and
      `above` (compared as `i8`). */
  function ClassMask(x: M128, below: byte, above: byte): M128 {
    And(CmpLt(x, Set1(above)), CmpGt(x, Set1(below)))
  }

  /** The lanes of a class, less `base` (wrapping), zero elsewhere. */
  function ClassPart(x: M128, mask: M128, base: byte): M128 {
    And(mask, Sub(x, Set1(base)))
  }

  /** Both bounds below 0x80: bytes from 0x80 up are negative and never
      in range. */
  lemma ClassMaskLane(x: M128, below: byte, above: byte, i: nat)
    requires below < above < 0x80 && i < 16
    ensures ClassMask(x, below, above)[i] == LaneMask(below < x[i] < above)
  {
    var lt := AsI8(x[i]) < AsI8(above);
    var gt := AsI8(x[i]) > AsI8(below);
    assert CmpLt(x, Set1(above))[i] == LaneMask(lt);
    assert CmpGt(x, Set1(below))[i] == LaneMask(gt);
    MaskAnd(lt, LaneMask(gt));
    assert (lt && gt) == (below < x[i] < above);
  }

  lemma ClassPartLane(x: M128, mask: M128, base: byte, i: nat, inClass: bool)
    requires i < 16 && mask[i] == LaneMask(inClass) && (inClass ==> base <= x[i])
    ensures ClassPart(x, mask, base)[i] == if inClass then x[i] - base else 0
  {
    MaskAnd(inClass, Sub(x, Set1(base))[i]);
  }

  /** Lines classifying `first_and_second`: the three digit classes `0-9`,
      `A-F`, `a-f` and their values; the ORed masks are `valid_mask`, the
      ORed parts the nibble each digit lane stands for. */
  function HexDigits(x: M128): (M128, M128) {
    var digit := ClassMask(x, 0x2F, 0x3A);  // between '/' and ':'
    var upper := ClassMask(x, 0x40, 0x47);  // between '@' and 'G'
    var lower := ClassMask(x, 0x60, 0x67);  // between '`' and 'g'
    var firstPart1 := ClassPart(x, digit, DIGIT_0);
    var firstPart2 := ClassPart(x, upper, UPPER_A - 10);
    var firstPart3 := ClassPart(x, lower, LOWER_A - 10);
    var validMask := Or(Or(digit, upper), lower);
    (Or(Or(firstPart1, firstPart2), firstPart3), validMask)
  }

  /** Each lane of `HexDigits(x)` is the hex value of a digit lane (zero
      elsewhere), and the validity mask marks exactly the digit lanes. */
  lemma HexDigitsLane(x: M128, i: nat)
    requires i < 16
    ensures HexDigits(x).0[i] == if IsHexDigit(x[i]) then HexValue(x[i]) else 0
    ensures HexDigits(x).1[i] == LaneMask(IsHexDigit(x[i]))
  {
    var b := x[i];
    var d := 0x2F < b < 0x3A;
    var u := 0x40 < b < 0x47;
    var l := 0x60 < b < 0x67;
    var digit := ClassMask(x, 0x2F, 0x3A);
    var upper := ClassMask(x, 0x40, 0x47);
    var lower := ClassMask(x, 0x60, 0x67);
    ClassMaskLane(x, 0x2F, 0x3A, i);
    ClassMaskLane(x, 0x40, 0x47, i);
    ClassMaskLane(x, 0x60, 0x67, i);
    ClassPartLane(x, digit, DIGIT_0, i, d);
    ClassPartLane(x, upper, UPPER_A - 10, i, u);
    ClassPartLane(x, lower, LOWER_A - 10, i, l);
    MaskOr(d, u);
    MaskOr(d || u, l);
  }

  lemma HexDigitsLanes(x: M128)
    ensures forall i :: 0 <= i < 16 ==>
              HexDigits(x).0[i] == (if IsHexDigit(x[i]) then HexValue(x[i]) else 0) &&
              HexDigits(x).1[i] == LaneMask(IsHexDigit(x[i]))
  {
    forall i | 0 <= i < 16
      ensures HexDigits(x).0[i] == (if IsHexDigit(x[i]) then HexValue(x[i]) else 0) &&
              HexDigits(x).1[i] == LaneMask(IsHexDigit(x[i]))
    {
      HexDigitsLane(x, i);
    }
  }

  /** Merging: the first nibble shifted up a nibble in the lane after the
      `%` (`mask1`), the second nibble moved down beside it (`mask2`), both
      ORed, moved down into the `%` lane, kept where `found` is set, and
      blended over the chunk there. */
  function MergeHex(chunk: M128, marks: M128, nibbles: M128, found: M128): M128 {
    var mask1 := Slli(marks, 1);
    var mask2 := Slli(marks, 2);
    var first1 := And(SlliEpi16By4(And(mask1, nibbles)), mask1);
    var second1 := Srli(And(nibbles, mask2), 1);
    var hex := Srli(Or(first1, second1), 1);
    Blendv(chunk, And(hex, found), found)
  }

  /** The lane after an escape's `%` holds the escape's byte before the final
      shift down. */
  lemma MergeDigitsLane(chunk: M128, marks: M128, nibbles: M128, i: nat)
    requires i + 2 < 16 && marks[i] == 0xFF
    requires nibbles[i] < 16 && nibbles[i + 1] < 16 && nibbles[i + 2] < 16
    ensures var mask1 := Slli(marks, 1);
            var mask2 := Slli(marks, 2);
            var first1 := And(SlliEpi16By4(And(mask1, nibbles)), mask1);
            var second1 := Srli(And(nibbles, mask2), 1);
            Or(first1, second1)[i + 1] == nibbles[i + 1] * 0x10 + nibbles[i + 2]
  {
    var mask1 := Slli(marks, 1);
    var mask2 := Slli(marks, 2);
    var a := nibbles[i + 1];
    var b := nibbles[i + 2];
    assert mask1[i + 1] == LaneMask(true) && mask2[i + 2] == LaneMask(true);
    MaskAnd(true, a);
    MaskAnd(true, b);
    assert And(mask1, nibbles)[i] <= nibbles[i];
    assert SlliEpi16By4(And(mask1, nibbles))[i + 1] == a * 0x10;
    MaskAnd(true, a * 0x10);
    Pow2Values();
    OrShifted(a, b, 4);
  }

  /** With `found` marking exactly the escapes of the chunk, every marked
      lane set at an escape and the nibbles of both digits in place, the
      merged chunk holds each escape's byte at its `%` and the chunk's own
      byte everywhere else. */
  lemma MergeHexLanes(chunk: M128, marks: M128, nibbles: M128, found: M128)
    requires forall i :: 0 <= i < 16 ==> found[i] == LaneMask(EscapeAt(chunk, i))
    requires forall i :: EscapeAt(chunk, i) ==> marks[i] == 0xFF
    requires forall i :: 0 <= i < 16 ==> nibbles[i] < 16
    requires forall i :: EscapeAt(chunk, i) ==>
               nibbles[i + 1] == HexValue(chunk[i + 1]) && nibbles[i + 2] == HexValue(chunk[i + 2])
    ensures forall y :: 0 <= y < 16 ==> MergeHex(chunk, marks, nibbles, found)[y] == Merged(chunk, y)
  {
    forall y | 0 <= y < 16
      ensures MergeHex(chunk, marks, nibbles, found)[y] == Merged(chunk, y)
    {
      var mask1 := Slli(marks, 1);
      var mask2 := Slli(marks, 2);
      var first1 := And(SlliEpi16By4(And(mask1, nibbles)), mask1);
      var second1 := Srli(And(nibbles, mask2), 1);
      var hex := Srli(Or(first1, second1), 1);
      var e := EscapeAt(chunk, y);
      MaskAnd(e, hex[y]);
      if e {
        MergeDigitsLane(chunk, marks, nibbles, y);
      }
    }
  }

  // ---------------------------------------------------------------------------
  // Compacting with the table

  /** A lane index is its own wrapped value and its own low nibble. */
  lemma LaneIndex(x: nat)
    requires x < 16
    ensures Wrap(x) == x && x % 16 == x
  {
  }

  /** Output lane `j` of the shuffle reads lane `j + entry[j]`. */
  lemma ShuffleLane(hex: M128, shuffleMask: seq<byte>, j: nat)
    requires |shuffleMask| == 16 && j < 16 && j + shuffleMask[j] < 16
    ensures Shuffle(hex, Add(Identity(), shuffleMask))[j] == hex[j + shuffleMask[j]]
  {
    var idx := j + shuffleMask[j];
    assert Add(Identity(), shuffleMask)[j] == Wrap(idx);
    LaneIndex(idx);
  }

  /** Shuffling by lane index plus table entry reads lane `j + entry[j]`,
      so the first `|t| - 2k` output lanes spell the decoded block. */
  lemma ShuffleDecodes(foundMask: u16, t: seq<byte>, hex: M128, shuffleMask: seq<byte>)
    requires Marks(foundMask, t) && 2 <= |t| && |shuffleMask| == 16
    requires forall y :: 0 <= y < |t| ==> hex[y] == Merged(t, y)
    requires AllCompact(foundMask, shuffleMask)
    ensures 2 * PopCount(foundMask) <= |t|
    ensures Shuffle(hex, Add(Identity(), shuffleMask))[..|t| - 2 * PopCount(foundMask)] == PercentDecoded(t)
  {
    var out := Shuffle(hex, Add(Identity(), shuffleMask));
    CompactDecodes(foundMask, t, hex, shuffleMask);
    var pd := PercentDecoded(t);
    forall j | 0 <= j < |pd| ensures out[j] == pd[j] {
      ShuffleLane(hex, shuffleMask, j);
    }
  }
}
