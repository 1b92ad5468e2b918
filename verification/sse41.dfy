/** The SSE4.1 block decoder: sixteen input bytes at a time, `+` replaced,
    the `%` that start complete escapes located, the escapes merged into the
    lane of their `%`, the two digit lanes of each escape squeezed out with
    one table shuffle, and a `%` in the last two lanes carried over into the
    next block. What is left after the last full block goes to the scalar
    decoder. The whole output is what the scalar decoder yields. */
module Sse41 {
  import opened Bytes
  import opened Simd
  import opened Fallback
  import opened ShuffleMask
  import opened Compaction
  import opened BlockLanes

  // ---------------------------------------------------------------------------
  // Lane predicates of a block `c` (lanes outside 0..15 hold nothing)

  /** Lane `i` holds `%`. */
  predicate Pct(c: M128, i: int) {
    0 <= i < 16 && c[i] == PERCENT
  }

  /** Lane `i` ends a run of `%`. */
  predicate RunEnd(c: M128, i: int) {
    Pct(c, i) && !Pct(c, i + 1)
  }

  /** Lane `i` ends a run of `%` and no run ends two lanes later: the only
      `%` that can still start a complete escape. */
  predicate Start(c: M128, i: int) {
    RunEnd(c, i) && !RunEnd(c, i + 2)
  }

  /** Lane `i` is one of the two lanes after a `Start` and holds a hex digit. */
  predicate HexLane(c: M128, i: int) {
    0 <= i < 16 && (Start(c, i - 1) || Start(c, i - 2)) && IsHexDigit(c[i])
  }

  /** Lanes `i - 1` and `i` are both such hex digits. */
  predicate HexPair(c: M128, i: int) {
    HexLane(c, i) && HexLane(c, i - 1)
  }

  /** A pair ends at `i`, `i + 1` or `i + 2`. */
  predicate NearPair(c: M128, i: int) {
    HexPair(c, i) || HexPair(c, i + 1) || HexPair(c, i + 2)
  }

  // ---------------------------------------------------------------------------
  // Locating the `%` that can start an escape

  /** `f & (f ^ (f >> k))` keeps the lanes of `f` whose lane `k` further on is
      clear. */
  lemma KeepUnlessAhead(f: M128, k: nat, i: nat, p: bool, q: bool)
    requires i < 16 && f[i] == LaneMask(p) && (i + k < 16 ==> f[i + k] == LaneMask(q))
    ensures And(f, Xor(f, Srli(f, k)))[i] == LaneMask(p && !(i + k < 16 && q))
  {
    var ahead := i + k < 16 && q;
    assert Srli(f, k)[i] == LaneMask(ahead);
    MaskXor(p, ahead);
    MaskAnd(p, LaneMask(p != ahead));
  }

  /** From a `%` at `p`, some lane at or after `p` is a `Start`. */
  lemma {:induction false} StartFrom(c: M128, p: int)
    requires Pct(c, p)
    ensures exists q :: p <= q < 16 && Start(c, q)
    decreases 16 - p
  {
    if !RunEnd(c, p) {
      StartFrom(c, p + 1);
    } else if RunEnd(c, p + 2) {
      StartFrom(c, p + 2);
    } else {
      assert Start(c, p);
    }
  }

  /** The early exit: `found` tests all zero exactly when the block holds no
      `%` at all. */
  lemma EarlyExit(c: M128, found: M128)
    requires forall i :: 0 <= i < 16 ==> found[i] == LaneMask(Start(c, i))
    ensures TestAllZeros(found, found) <==> PERCENT !in c
  {
    forall i | 0 <= i < 16 ensures AndByte(found[i], found[i]) == found[i] {
      AndSelf(found[i]);
    }
    if PERCENT in c {
      var p :| 0 <= p < 16 && c[p] == PERCENT;
      StartFrom(c, p);
      var q :| p <= q < 16 && Start(c, q);
      assert AndByte(found[q], found[q]) != 0;
    }
  }

  // ---------------------------------------------------------------------------
  // Checking and merging the escapes

  /** `valid_mask` ANDed with itself shifted up a lane, then ORed twice with
      itself shifted down a lane. */
  function PairCheck(valid: M128): M128 {
    var valid := And(valid, Slli(valid, 1));
    var valid := Or(valid, Srli(valid, 1));
    Or(valid, Srli(valid, 1))
  }

  /** A lane of `PairCheck` is set exactly when a pair of hex digit lanes
      ends there or at one of the next two lanes. */
  lemma PairCheckLanes(c: M128, valid: M128)
    requires forall i :: 0 <= i < 16 ==> valid[i] == LaneMask(HexLane(c, i))
    ensures forall i :: 0 <= i < 16 ==> PairCheck(valid)[i] == LaneMask(NearPair(c, i))
  {
    var v1 := And(valid, Slli(valid, 1));
    var v2 := Or(v1, Srli(v1, 1));
    forall i | 0 <= i < 16 ensures v1[i] == LaneMask(HexPair(c, i)) {
      assert Slli(valid, 1)[i] == LaneMask(HexLane(c, i - 1));
      MaskAnd(HexLane(c, i), LaneMask(HexLane(c, i - 1)));
    }
    forall i | 0 <= i < 16 ensures v2[i] == LaneMask(HexPair(c, i) || HexPair(c, i + 1)) {
      assert Srli(v1, 1)[i] == LaneMask(HexPair(c, i + 1));
      MaskOr(HexPair(c, i), HexPair(c, i + 1));
    }
    forall i | 0 <= i < 16 ensures PairCheck(valid)[i] == LaneMask(NearPair(c, i)) {
      var ahead := HexPair(c, i + 1) || HexPair(c, i + 2);
      assert Srli(v2, 1)[i] == LaneMask(ahead);
      MaskOr(HexPair(c, i) || HexPair(c, i + 1), ahead);
    }
  }

  /** A complete escape starts at a `Start` lane: its digits are not `%`. */
  lemma EscapeIsStart(c: M128, i: int)
    requires EscapeAt(c, i)
    ensures Start(c, i) && HexPair(c, i + 2)
  {
    assert !IsHexDigit(PERCENT);
  }

  /** A `Start` lane with a pair of hex digit lanes near it starts a complete
      escape, and conversely. */
  lemma StartNearPair(c: M128, i: int)
    requires 0 <= i < 16
    ensures (NearPair(c, i) && Start(c, i)) <==> EscapeAt(c, i)
  {
    assert !IsHexDigit(PERCENT);
    if EscapeAt(c, i) {
      EscapeIsStart(c, i);
    }
  }

  /** The digit candidates after each `Start`, classified: the validity mask
      marks the hex digit lanes, every nibble is below 16, and the two
      digits of each escape carry their values. */
  lemma DigitLanes(c: M128, starts: M128)
    requires forall i :: 0 <= i < 16 ==> starts[i] == LaneMask(Start(c, i))
    ensures var digits := HexDigits(DigitCandidates(c, starts));
            (forall i :: 0 <= i < 16 ==> digits.1[i] == LaneMask(HexLane(c, i)) && digits.0[i] < 16) &&
            (forall i :: EscapeAt(c, i) ==>
               digits.0[i + 1] == HexValue(c[i + 1]) && digits.0[i + 2] == HexValue(c[i + 2]))
  {
    assert IsMask(starts);
    var fas := DigitCandidates(c, starts);
    DigitCandidatesLanes(c, starts);
    var digits := HexDigits(fas);
    HexDigitsLanes(fas);
    forall i | 0 <= i < 16 ensures digits.1[i] == LaneMask(HexLane(c, i)) {
      assert AfterMark(starts, i) == (Start(c, i - 1) || Start(c, i - 2));
    }
    forall i | EscapeAt(c, i)
      ensures digits.0[i + 1] == HexValue(c[i + 1]) && digits.0[i + 2] == HexValue(c[i + 2])
    {
      EscapeIsStart(c, i);
      assert AfterMark(starts, i + 1) && AfterMark(starts, i + 2);
    }
  }

  /** `found` after the check marks exactly the complete escapes, and the
      kept nibbles are the digits' values at each escape. */
  lemma CheckedLanes(c: M128, starts: M128, digits: (M128, M128), validMask: M128)
    requires forall i :: 0 <= i < 16 ==> starts[i] == LaneMask(Start(c, i))
    requires forall i :: 0 <= i < 16 ==> digits.1[i] == LaneMask(HexLane(c, i)) && digits.0[i] < 16
    requires forall i :: EscapeAt(c, i) ==>
               digits.0[i + 1] == HexValue(c[i + 1]) && digits.0[i + 2] == HexValue(c[i + 2])
    requires validMask == PairCheck(digits.1)
    ensures forall i :: 0 <= i < 16 ==> And(validMask, starts)[i] == LaneMask(EscapeAt(c, i))
    ensures forall i :: 0 <= i < 16 ==> And(validMask, digits.0)[i] < 16
    ensures forall i :: EscapeAt(c, i) ==>
              starts[i] == 0xFF &&
              And(validMask, digits.0)[i + 1] == HexValue(c[i + 1]) &&
              And(validMask, digits.0)[i + 2] == HexValue(c[i + 2])
  {
    PairCheckLanes(c, digits.1);
    forall i | 0 <= i < 16 ensures And(validMask, starts)[i] == LaneMask(EscapeAt(c, i)) {
      MaskAnd(NearPair(c, i), starts[i]);
      StartNearPair(c, i);
    }
    forall i | EscapeAt(c, i)
      ensures starts[i] == 0xFF &&
              And(validMask, digits.0)[i + 1] == HexValue(c[i + 1]) &&
              And(validMask, digits.0)[i + 2] == HexValue(c[i + 2])
    {
      EscapeIsStart(c, i);
      MaskAnd(true, digits.0[i + 1]);
      MaskAnd(true, digits.0[i + 2]);
    }
  }

  // ---------------------------------------------------------------------------
  // Compacting a block

  /** Lanes held back for the next block: two when lane 14 is `%`, else one
      when lane 15 is `%`, else none. */
  function Carry(chunk: M128): (n: nat)
    ensures n <= 2
  {
    if chunk[14] == PERCENT then 2 else if chunk[15] == PERCENT then 1 else 0
  }

  /** No complete escape of the block reaches into the lanes held back. */
  lemma CarryEscapes(chunk: M128, c: M128)
    requires c == ReplacedPlus(chunk)
    ensures forall i :: EscapeAt(c, i) ==> i + 2 < 16 - Carry(chunk)
  {
    assert !IsHexDigit(PERCENT);
    assert c[14] == PERCENT <==> chunk[14] == PERCENT;
    assert c[15] == PERCENT <==> chunk[15] == PERCENT;
  }

  /** The lanes just before the cut do not start complete escapes of the
      replaced input. */
  lemma CutClear(rest: seq<byte>)
    requires |rest| >= 16
    ensures var n := 16 - Carry(rest[..16]);
            !EscapeAt(ReplacedPlus(rest), n - 1) && !EscapeAt(ReplacedPlus(rest), n - 2)
  {
    var s := ReplacedPlus(rest);
    assert !IsHexDigit(PERCENT);
    assert s[14] == PERCENT <==> rest[14] == PERCENT;
    assert s[15] == PERCENT <==> rest[15] == PERCENT;
  }

  /** The block's replaced lanes below the cut are the input's. */
  lemma ReplacedHead(rest: seq<byte>, n: nat)
    requires n <= 16 <= |rest|
    ensures ReplacedPlus(rest[..16])[..n] == ReplacedPlus(rest)[..n]
  {
    var a := ReplacedPlus(rest[..16]);
    var s := ReplacedPlus(rest);
    forall i | 0 <= i < n ensures a[i] == s[i] {
      assert rest[..16][i] == rest[i];
    }
    assert a[..n] == s[..n];
  }

  /** The replaced rest of the input is the replaced input from the cut on. */
  lemma ReplacedTail(rest: seq<byte>, n: nat)
    requires n <= |rest|
    ensures ReplacedPlus(rest[n..]) == ReplacedPlus(rest)[n..]
  {
    var b := ReplacedPlus(rest[n..]);
    var s := ReplacedPlus(rest);
    forall i | 0 <= i < |b| ensures b[i] == s[n + i] {
      assert rest[n..][i] == rest[n + i];
    }
    assert b == s[n..];
  }

  /** Decoding the input splits after the lanes the block decodes. */
  lemma CarrySplit(rest: seq<byte>)
    requires |rest| >= 16
    ensures var n := 16 - Carry(rest[..16]);
            Decoded(rest) == PercentDecoded(ReplacedPlus(rest[..16])[..n]) + Decoded(rest[n..])
  {
    var n := 16 - Carry(rest[..16]);
    CutClear(rest);
    SplitAt(ReplacedPlus(rest), n);
    ReplacedHead(rest, n);
    ReplacedTail(rest, n);
  }

  /** With no `%` in the block, the block is copied as it is. */
  lemma NoPercentBlock(rest: seq<byte>)
    requires |rest| >= 16 && PERCENT !in ReplacedPlus(rest[..16])
    ensures Decoded(rest) == ReplacedPlus(rest[..16]) + Decoded(rest[16..])
  {
    var c := ReplacedPlus(rest[..16]);
    assert c[14] != PERCENT && c[15] != PERCENT;
    CarrySplit(rest);
    CarryEscapes(rest[..16], c);
    assert c[..16] == c;
    NoPercentNoEscape(c, 0);
    NoEscapeIdentity(c);
  }

  /** `& 0b0011111111111111` keeps a value below `2^14`. */
  lemma BitAndLow14(m: nat)
    requires m < TABLE_SIZE
    ensures BitAnd(m, 0x3FFF) == m
  {
    Pow2Values();
    AndOnes(14, m);
  }

  /** The table index: `found_mask` with lanes 14 and 15 shaved off, which
      never changes it, marks the escapes of the decoded lanes. */
  lemma FoundMaskMarks(chunk: M128, c: M128, found: M128, foundMask: u16)
    requires c == ReplacedPlus(chunk)
    requires forall i :: 0 <= i < 16 ==> found[i] == LaneMask(EscapeAt(c, i))
    requires foundMask == MoveMask(found)
    ensures foundMask < TABLE_SIZE && BitAnd(foundMask, 0x3FFF) == foundMask
    ensures Marks(foundMask, c[..16 - Carry(chunk)])
  {
    var t := c[..16 - Carry(chunk)];
    CarryEscapes(chunk, c);
    forall i | 0 <= i < 16 ensures Bit(foundMask, i) <==> EscapeAt(c, i) {
      MaskTop(EscapeAt(c, i));
    }
    ValidInTable(foundMask);
    BitAndLow14(foundMask);
    forall i | 0 <= i < 16 ensures Bit(foundMask, i) <==> EscapeAt(t, i) {
      assert EscapeAt(t, i) <==> EscapeAt(c, i);
    }
  }

  /** Cutting a block after its last escape keeps each merged lane. */
  lemma MergedPrefix(c: seq<byte>, n: nat, y: nat)
    requires y < n <= |c|
    requires forall i :: EscapeAt(c, i) ==> i + 2 < n
    ensures Merged(c[..n], y) == Merged(c, y)
  {
    assert EscapeAt(c[..n], y) == EscapeAt(c, y);
  }

  /** The merged lanes below the cut are those of the cut block. */
  lemma MergedCut(c: M128, hex: M128, n: nat)
    requires n <= 16 && forall i :: EscapeAt(c, i) ==> i + 2 < n
    requires forall y :: 0 <= y < 16 ==> hex[y] == Merged(c, y)
    ensures forall y :: 0 <= y < n ==> hex[y] == Merged(c[..n], y)
  {
    forall y | 0 <= y < n ensures hex[y] == Merged(c[..n], y) {
      MergedPrefix(c, n, y);
    }
  }

  /** The block theorem: with `found` marking the escapes of the replaced
      chunk `c` and each lane holding its merged byte, the first
      `16 - carry - 2k` lanes of the shuffled block are the decoded bytes of
      its first `16 - carry` lanes. */
  lemma ChunkDecodes(chunk: M128, c: M128, found: M128, hex: M128, foundMask: u16, shuffleMask: seq<byte>)
    requires c == ReplacedPlus(chunk)
    requires forall i :: 0 <= i < 16 ==> found[i] == LaneMask(EscapeAt(c, i))
    requires forall y :: 0 <= y < 16 ==> hex[y] == Merged(c, y)
    requires foundMask == MoveMask(found) && shuffleMask == BuildMask(foundMask)
    ensures 2 * PopCount(foundMask) <= 16 - Carry(chunk)
    ensures Shuffle(hex, Add(Identity(), shuffleMask))[..16 - Carry(chunk) - 2 * PopCount(foundMask)]
            == PercentDecoded(c[..16 - Carry(chunk)])
  {
    var t := c[..16 - Carry(chunk)];
    FoundMaskMarks(chunk, c, found, foundMask);
    MarksValid(foundMask, t);
    BuildMaskCompacts(foundMask);
    CarryEscapes(chunk, c);
    MergedCut(c, hex, |t|);
    ShuffleDecodes(foundMask, t, hex, shuffleMask);
  }

  /** The block theorem on the input: decoding the rest of the input is the
      shuffled block's first `16 - carry - 2k` lanes, then decoding from the
      first lane held back. */
  lemma BlockDecodes(rest: seq<byte>, c: M128, found: M128, hex: M128, foundMask: u16, shuffleMask: seq<byte>,
                     srcEnd: nat, numJunk: nat)
    requires |rest| >= 16 && c == ReplacedPlus(rest[..16])
    requires forall i :: 0 <= i < 16 ==> found[i] == LaneMask(EscapeAt(c, i))
    requires forall y :: 0 <= y < 16 ==> hex[y] == Merged(c, y)
    requires foundMask == MoveMask(found) && shuffleMask == BuildMask(foundMask)
    requires srcEnd == 16 - Carry(rest[..16]) && numJunk == 2 * PopCount(foundMask)
    ensures numJunk <= srcEnd
    ensures Decoded(rest) == Shuffle(hex, Add(Identity(), shuffleMask))[..srcEnd - numJunk] + Decoded(rest[srcEnd..])
  {
    ChunkDecodes(rest[..16], c, found, hex, foundMask, shuffleMask);
    CarrySplit(rest);
  }

  /** Appending a block's output keeps the loop's account of the output. */
  lemma AppendBlock(done: seq<byte>, rest: seq<byte>, block: seq<byte>, n: nat, total: seq<byte>)
    requires n <= |rest| && Decoded(rest) == block + Decoded(rest[n..])
    requires done + Decoded(rest) == total
    ensures (done + block) + Decoded(rest[n..]) == total
  {
  }

  // ---------------------------------------------------------------------------
  // The decoder, stage by stage

  /** `+` becomes a space in every lane. */
  method ReplacePlusLanes(chunk: M128) returns (c: M128)
    ensures c == ReplacedPlus(chunk)
  {
    var found := CmpEq(chunk, Set1(PLUS));
    c := Blendv(chunk, Set1(SPACE), found);
  }

  /** `found`: the `%` lanes, kept only where the next lane is not `%`, then
      only where the lane two on is not such a lane. */
  method LocatePercent(c: M128) returns (found: M128)
    ensures forall i :: 0 <= i < 16 ==> found[i] == LaneMask(Start(c, i))
  {
    var pct := CmpEq(c, Set1(PERCENT));
    found := And(pct, Xor(pct, Srli(pct, 1)));
    forall i | 0 <= i < 16 ensures found[i] == LaneMask(RunEnd(c, i)) {
      KeepUnlessAhead(pct, 1, i, Pct(c, i), Pct(c, i + 1));
    }
    ghost var runEnds := found;
    found := And(found, Xor(found, Srli(found, 2)));
    forall i | 0 <= i < 16 ensures found[i] == LaneMask(Start(c, i)) {
      KeepUnlessAhead(runEnds, 2, i, RunEnd(c, i), RunEnd(c, i + 2));
    }
  }

  /** The digits after each `%` checked, `found` narrowed to the complete
      escapes, and each escape's byte merged into the lane of its `%`. */
  method MergeEscapes(c: M128, starts: M128) returns (found: M128, hex: M128)
    requires forall i :: 0 <= i < 16 ==> starts[i] == LaneMask(Start(c, i))
    ensures forall i :: 0 <= i < 16 ==> found[i] == LaneMask(EscapeAt(c, i))
    ensures forall y :: 0 <= y < 16 ==> hex[y] == Merged(c, y)
  {
    var firstAndSecond := DigitCandidates(c, starts);
    var digits := HexDigits(firstAndSecond);
    DigitLanes(c, starts);
    var validMask := PairCheck(digits.1);
    found := And(validMask, starts);
    var nibbles := And(validMask, digits.0);
    CheckedLanes(c, starts, digits, validMask);
    hex := MergeHex(c, starts, nibbles, found);
    MergeHexLanes(c, starts, nibbles, found);
  }

  /** `SHUFFLE_MASK[found_mask]`: the generated table, read at an index the
      decoder proves in range. */
  function ShuffleMaskAt(foundMask: u16): (r: seq<byte>)
    requires foundMask < TABLE_SIZE
    ensures |r| == 16
  {
    BuildMask(foundMask)
  }

  /** The table lookup, the carry of a trailing `%` and the shuffle: `out`
      is the decoded block, and decoding goes on from `srcEnd`. */
  method CompactBlock(rest: seq<byte>, c: M128, found: M128, hex: M128) returns (out: seq<byte>, srcEnd: nat)
    requires |rest| >= 16 && c == ReplacedPlus(rest[..16])
    requires forall i :: 0 <= i < 16 ==> found[i] == LaneMask(EscapeAt(c, i))
    requires forall y :: 0 <= y < 16 ==> hex[y] == Merged(c, y)
    ensures 14 <= srcEnd <= 16 && srcEnd == 16 - Carry(rest[..16])
    ensures |out| == srcEnd - 2 * PopCount(MoveMask(found))
    ensures Decoded(rest) == out + Decoded(rest[srcEnd..])
  {
    var foundMask := MoveMask(found);
    var numPercent := PopCount(foundMask);
    var numJunk := 2 * numPercent;
    FoundMaskMarks(rest[..16], c, found, foundMask);
    foundMask := BitAnd(foundMask, 0x3FFF);
    var shuffleMask := ShuffleMaskAt(foundMask);

    // a `%` in the last two lanes starts the next block
    var shiftNext := 0;
    if rest[14] == PERCENT {
      shiftNext := 2;
    } else if rest[15] == PERCENT {
      shiftNext := 1;
    }
    assert shiftNext == Carry(rest[..16]);
    srcEnd := 16 - shiftNext;
    BlockDecodes(rest, c, found, hex, foundMask, shuffleMask, srcEnd, numJunk);
    var dstEnd := srcEnd - numJunk;

    var shuffleMap := Add(Identity(), shuffleMask);
    var shuffled := Shuffle(hex, shuffleMap);
    out := shuffled[..dstEnd];
  }

  /** `url_decode`: the decoded input is appended to `dst`. `rest` is the
      part of `src` not yet consumed (the source reassigns `src` itself). */
  method UrlDecode(src: seq<byte>, dst: ByteVec)
    modifies dst
    ensures dst.elems == old(dst.elems) + Decoded(src)
  {
    var rest := src;
    while |rest| >= 16
      invariant dst.elems + Decoded(rest) == old(dst.elems) + Decoded(src)
      decreases |rest|
    {
      var chunk := ReplacePlusLanes(rest[..16]);
      var found := LocatePercent(chunk);
      if TestAllZeros(found, found) {
        EarlyExit(chunk, found);
        NoPercentBlock(rest);
        AppendBlock(dst.elems, rest, chunk, 16, old(dst.elems) + Decoded(src));
        dst.elems := dst.elems + chunk;
        rest := rest[16..];
        continue;
      }
      var hex;
      found, hex := MergeEscapes(chunk, found);
      var out, srcEnd := CompactBlock(rest, chunk, found, hex);
      AppendBlock(dst.elems, rest, out, srcEnd, old(dst.elems) + Decoded(src));
      dst.elems := dst.elems + out;
      rest := rest[srcEnd..];
    }
    if |rest| > 0 {
      DecodeExtend(rest, dst);
    }
  }
}
