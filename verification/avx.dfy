/** The older AVX block decoder: sixteen input bytes at a time, every `%`
    lane taken as an escape without checking its digits, the shuffle map
    built by a loop over the block's `%` bytes, and the block's first
    `16 - 2k` shuffled lanes appended for `k` such bytes. `+` is copied as it
    is, nothing is carried into the next block, and the bytes after the last
    full block are never decoded. */
module Avx {
  import opened Bytes
  import opened Simd
  import opened Fallback
  import opened ShuffleMask
  import opened Compaction
  import opened BlockLanes

  /** `fallback_decode`: the scalar decoder, overwriting `dst`. */
  method FallbackDecode(src: seq<byte>, dst: ByteVec)
    modifies dst
    ensures dst.elems == Decoded(src)
  {
    Decode(src, dst);
  }

  // ---------------------------------------------------------------------------
  // The shuffle-map loop

  /** The number of `%` bytes in the lanes below `t`. */
  function CountPct(chunk: M128, t: nat): (k: nat)
    requires t <= 16
    ensures k <= t
  {
    if t == 0 then 0 else CountPct(chunk, t - 1) + (if chunk[t - 1] == PERCENT then 1 else 0)
  }

  /** The `for in_i in 0..16` loop that builds the shuffle map, from the
      state where iteration `t` is about to run; `None` where `out_i -= 2`
      would go below zero, which panics. */
  function ShuffleMapFrom(chunk: M128, sm: seq<byte>, numJunk: nat, outI: nat, t: nat): (r: Option<seq<byte>>)
    requires |sm| == 16 && outI <= t <= 16
    ensures r.Some? ==> |r.value| == 16
    decreases 16 - t
  {
    if t == 16 then Some(sm)
    else
      var sm' := sm[outI := numJunk % 0x100];
      var numJunk' := if chunk[t] == PERCENT then numJunk + 2 else numJunk;
      if chunk[t] == PERCENT && numJunk' > 2 then
        if outI < 2 then None else ShuffleMapFrom(chunk, sm', numJunk', outI - 2 + 1, t + 1)
      else
        ShuffleMapFrom(chunk, sm', numJunk', outI + 1, t + 1)
  }

  /** One iteration of the loop. */
  lemma ShuffleMapUnfold(chunk: M128, sm: seq<byte>, numJunk: nat, outI: nat, t: nat)
    requires |sm| == 16 && outI <= t < 16
    ensures var sm' := sm[outI := numJunk % 0x100];
            var numJunk' := if chunk[t] == PERCENT then numJunk + 2 else numJunk;
            ShuffleMapFrom(chunk, sm, numJunk, outI, t) ==
              if chunk[t] == PERCENT && numJunk' > 2 then
                if outI < 2 then None else ShuffleMapFrom(chunk, sm', numJunk', outI - 1, t + 1)
              else ShuffleMapFrom(chunk, sm', numJunk', outI + 1, t + 1)
  {
  }

  /** The shuffle map of a block, if building it does not panic. */
  function ShuffleMap(chunk: M128): (r: Option<seq<byte>>)
    ensures r.Some? ==> |r.value| == 16
  {
    ShuffleMapFrom(chunk, Zeros(), 0, 0, 0)
  }

  /** A block the decoder gets through without an underflow: the map loop
      never moves `out_i` below zero, and `16 - num_junk` is not negative. */
  predicate SafeBlock(chunk: M128) {
    ShuffleMap(chunk).Some? && CountPct(chunk, 16) <= 8
  }

  /** `out_i` before iteration `t`: `t` up to the first `%`, then two lanes
      back for every later `%`. */
  function OutAt(chunk: M128, t: nat): int
    requires t <= 16
  {
    var c := CountPct(chunk, t);
    if c == 0 then t else t - 2 * c + 2
  }

  /** Every `%` from lane `t` on that is not the block's first sits at a
      lane at least twice the number of `%` bytes before it. */
  predicate RoomFrom(chunk: M128, t: nat) {
    forall p :: t <= p < 16 && chunk[p] == PERCENT ==> p >= 2 * CountPct(chunk, p)
  }

  lemma {:induction false} ShuffleMapFromSome(chunk: M128, sm: seq<byte>, numJunk: nat, outI: nat, t: nat)
    requires |sm| == 16 && outI <= t <= 16
    requires numJunk == 2 * CountPct(chunk, t) && outI == OutAt(chunk, t)
    ensures ShuffleMapFrom(chunk, sm, numJunk, outI, t).Some? <==> RoomFrom(chunk, t)
    decreases 16 - t
  {
    if t < 16 {
      ShuffleMapUnfold(chunk, sm, numJunk, outI, t);
      var sm' := sm[outI := numJunk % 0x100];
      var c := CountPct(chunk, t);
      if chunk[t] == PERCENT {
        if c >= 1 && outI < 2 {
          assert !RoomFrom(chunk, t);
        } else {
          var outI' := if c >= 1 then outI - 1 else outI + 1;
          ShuffleMapFromSome(chunk, sm', numJunk + 2, outI', t + 1);
        }
      } else {
        ShuffleMapFromSome(chunk, sm', numJunk, outI + 1, t + 1);
      }
    }
  }

  /** The panics the loop and `16 - num_junk` can hit, in closed form: a
      block is safe exactly when it holds at most eight `%` and every `%`
      after the first sits at a lane at least twice the number of `%`
      before it (so `%` in lanes 0 and 1 is not safe). */
  lemma SafeBlockIff(chunk: M128)
    ensures SafeBlock(chunk) <==> CountPct(chunk, 16) <= 8 && RoomFrom(chunk, 0)
  {
    ShuffleMapFromSome(chunk, Zeros(), 0, 0, 0);
  }

  // ---------------------------------------------------------------------------
  // One block

  /** `hex` after the blend: the nibbles of the two lanes after every `%`
      merged into the `%` lane, with no check that they are hex digits. */
  function MergedBlock(chunk: M128): M128 {
    var found := CmpEq(chunk, Set1(PERCENT));
    MergeHex(chunk, found, HexDigits(DigitCandidates(chunk, found)).0, found)
  }

  /** The first `16 - numJunk` lanes of `hex` shuffled by lane index plus
      map entry. */
  function Compacted(hex: M128, shuffleMap: seq<byte>, numJunk: nat): (r: seq<byte>)
    requires |shuffleMap| == 16 && numJunk <= 16
    ensures |r| == 16 - numJunk
  {
    Shuffle(hex, Add(Identity(), shuffleMap))[..16 - numJunk]
  }

  /** What one block appends: the merged block compacted by the map, for
      `k` bytes `%`. */
  function Block(chunk: M128): (r: seq<byte>)
    requires SafeBlock(chunk)
  {
    Compacted(MergedBlock(chunk), ShuffleMap(chunk).value, 2 * CountPct(chunk, 16))
  }

  /** Every `%` of the block starts a complete escape inside it. */
  predicate EscapesOnly(chunk: M128) {
    forall i :: 0 <= i < 16 && chunk[i] == PERCENT ==> EscapeAt(chunk, i)
  }

  /** The bitmap of the block's `%` lanes. */
  function PctMask(chunk: M128): (m: u16)
    ensures forall i :: 0 <= i < 16 ==> (Bit(m, i) <==> chunk[i] == PERCENT)
  {
    var found := CmpEq(chunk, Set1(PERCENT));
    var m := MoveMask(found);
    forall i | 0 <= i < 16 ensures Bit(m, i) <==> chunk[i] == PERCENT {
      MaskTop(chunk[i] == PERCENT);
    }
    m
  }

  lemma {:induction false} CountAgree(chunk: M128, t: nat)
    requires t <= 16
    ensures CountPct(chunk, t) == CountBits(PctMask(chunk), t)
  {
    if t > 0 {
      CountAgree(chunk, t - 1);
    }
  }

  /** With every `%` a valid escape, the loop is `build_mask_128`'s loop
      with its guard always true, so it keeps the same invariant and every
      entry it leaves below `16 - 2k` compacts. */
  lemma {:induction false} ShuffleMapFromCorrect(chunk: M128, found: u16, sm: seq<byte>, numJunk: nat, outI: nat, t: nat)
    requires forall i :: 0 <= i < 16 ==> (Bit(found, i) <==> chunk[i] == PERCENT)
    requires ValidBitmap(found)
    requires |sm| == 16 && outI <= t <= 16 && Inv(found, sm, numJunk, outI, t)
    ensures ShuffleMapFrom(chunk, sm, numJunk, outI, t).Some?
    ensures forall j :: 0 <= j < 16 - 2 * PopCount(found) ==>
              Correct(found, j, ShuffleMapFrom(chunk, sm, numJunk, outI, t).value[j])
    decreases 16 - t
  {
    if t < 16 {
      ShuffleMapUnfold(chunk, sm, numJunk, outI, t);
      StepInv(found, sm, numJunk, outI, t);
      var sm' := sm[outI := numJunk % 0x100];
      if Bit(found, t) {
        if numJunk + 2 > 2 {
          StepEscape(found, sm, numJunk, outI, t);
          ShuffleMapFromCorrect(chunk, found, sm', numJunk + 2, outI - 1, t + 1);
        } else {
          ShuffleMapFromCorrect(chunk, found, sm', numJunk + 2, outI + 1, t + 1);
        }
      } else {
        ShuffleMapFromCorrect(chunk, found, sm', numJunk, outI + 1, t + 1);
      }
    } else {
      CountBitsMono(found, 16);
      NoHighBits(found, 16);
      assert Prefix(found, sm, outI);
    }
  }

  /** The `%` lanes of a well-formed block are its escapes, and its map
      compacts. */
  lemma WellFormedMap(chunk: M128)
    requires EscapesOnly(chunk)
    ensures Marks(PctMask(chunk), chunk)
    ensures ShuffleMap(chunk).Some? && AllCompact(PctMask(chunk), ShuffleMap(chunk).value)
  {
    var found := PctMask(chunk);
    assert !IsHexDigit(PERCENT);
    assert Marks(found, chunk);
    MarksValid(found, chunk);
    ShuffleMapFromCorrect(chunk, found, Zeros(), 0, 0, 0);
    var r := ShuffleMap(chunk).value;
    KeptFormula(found, 14);
    assert CountBits(found, 16) == CountBits(found, 14);
    forall j | 0 <= j < 16 - 2 * PopCount(found)
      ensures Compacts(found, j, r[j])
    {
      if j + r[j] >= 16 {
        KeptMono(found, 16, j + r[j]);
      }
    }
  }

  /** The blend only writes the `%` lanes: every other lane of the merged
      block is the input byte, whatever the digits after a `%`. */
  lemma MergeKeepsPlain(chunk: M128)
    ensures forall y :: 0 <= y < 16 && chunk[y] != PERCENT ==> MergedBlock(chunk)[y] == chunk[y]
  {
    var found := CmpEq(chunk, Set1(PERCENT));
    forall y | 0 <= y < 16 && chunk[y] != PERCENT
      ensures MergedBlock(chunk)[y] == chunk[y]
    {
      assert found[y] == 0;
    }
  }

  /** The merged block holds each escape's byte at its `%`. */
  lemma WellFormedMerge(chunk: M128)
    requires EscapesOnly(chunk)
    ensures forall y :: 0 <= y < 16 ==> MergedBlock(chunk)[y] == Merged(chunk, y)
  {
    var found := CmpEq(chunk, Set1(PERCENT));
    var fas := DigitCandidates(chunk, found);
    var nibbles := HexDigits(fas).0;
    assert IsMask(found);
    DigitCandidatesLanes(chunk, found);
    HexDigitsLanes(fas);
    forall i | 0 <= i < 16 ensures found[i] == LaneMask(EscapeAt(chunk, i)) {
      assert !IsHexDigit(PERCENT);
    }
    forall i | EscapeAt(chunk, i)
      ensures nibbles[i + 1] == HexValue(chunk[i + 1]) && nibbles[i + 2] == HexValue(chunk[i + 2])
    {
      assert AfterMark(found, i + 1) && AfterMark(found, i + 2);
    }
    MergeHexLanes(chunk, found, nibbles, found);
  }

  /** Compacting a merged block whose map compacts its escapes yields the
      decoded block. */
  lemma CompactedDecodes(found: u16, t: M128, hex: M128, shuffleMap: seq<byte>, numJunk: nat)
    requires Marks(found, t) && |shuffleMap| == 16 && AllCompact(found, shuffleMap)
    requires forall y :: 0 <= y < 16 ==> hex[y] == Merged(t, y)
    requires numJunk == 2 * PopCount(found)
    ensures numJunk <= 16 && Compacted(hex, shuffleMap, numJunk) == PercentDecoded(t)
  {
    ShuffleDecodes(found, t, hex, shuffleMap);
  }

  /** A block whose every `%` starts a complete escape inside it is safe,
      and decodes as the scalar percent-decoder decodes it. */
  lemma WellFormedBlock(chunk: M128)
    requires EscapesOnly(chunk)
    ensures SafeBlock(chunk) && Block(chunk) == PercentDecoded(chunk)
  {
    WellFormedMap(chunk);
    WellFormedMerge(chunk);
    CountAgree(chunk, 16);
    CompactedDecodes(PctMask(chunk), chunk, MergedBlock(chunk), ShuffleMap(chunk).value, 2 * CountPct(chunk, 16));
  }

  // ---------------------------------------------------------------------------
  // The whole input

  /** Every full block is safe. */
  predicate SafeBlocks(s: seq<byte>)
    decreases |s|
  {
    |s| < 16 || (SafeBlock(LoadU(s)) && SafeBlocks(s[16..]))
  }

  /** What the decoder appends: each full block's output, in order; the
      bytes after the last full block add nothing. */
  function BlocksDecoded(s: seq<byte>): seq<byte>
    requires SafeBlocks(s)
    decreases |s|
  {
    if |s| < 16 then [] else Block(LoadU(s)) + BlocksDecoded(s[16..])
  }

  /** Every full block is well formed. */
  predicate WellFormedBlocks(s: seq<byte>)
    decreases |s|
  {
    |s| < 16 || (EscapesOnly(LoadU(s)) && WellFormedBlocks(s[16..]))
  }

  /** The full blocks of `s`. */
  function FullBlocks(s: seq<byte>): (r: seq<byte>)
    ensures |r| % 16 == 0 && |s| - 16 < |r| <= |s| && r == s[..|r|]
  {
    s[..|s| - |s| % 16]
  }

  /** The full blocks of `s` are its first block, then the full blocks of
      the rest. */
  lemma BlocksSplit(s: seq<byte>)
    requires |s| >= 16
    ensures FullBlocks(s)[..16] == s[..16] && FullBlocks(s)[16..] == FullBlocks(s[16..])
  {
    assert (|s| - 16) % 16 == |s| % 16;
  }

  /** No escape crosses the end of a well-formed first block, so decoding
      the full blocks splits after it. */
  lemma FullBlocksSplit(s: seq<byte>)
    requires |s| >= 16 && EscapesOnly(LoadU(s))
    ensures PercentDecoded(FullBlocks(s)) == PercentDecoded(LoadU(s)) + PercentDecoded(FullBlocks(s[16..]))
  {
    var full := FullBlocks(s);
    BlocksSplit(s);
    assert !IsHexDigit(PERCENT);
    assert full[14] == s[..16][14] && full[15] == s[..16][15];
    SplitAt(full, 16);
  }

  /** When every full block is well formed, the decoder is safe and appends
      the scalar percent-decoding of the full blocks. */
  lemma {:induction false} WellFormedInput(s: seq<byte>)
    requires WellFormedBlocks(s)
    ensures SafeBlocks(s) && BlocksDecoded(s) == PercentDecoded(FullBlocks(s))
    decreases |s|
  {
    if |s| >= 16 {
      WellFormedBlock(LoadU(s));
      WellFormedInput(s[16..]);
      FullBlocksSplit(s);
    } else {
      assert FullBlocks(s) == [];
    }
  }

  /** Without `+` in the full blocks, that is what `fallback::decode` makes
      of them. */
  lemma WellFormedDecoded(s: seq<byte>)
    requires WellFormedBlocks(s) && PLUS !in FullBlocks(s)
    ensures SafeBlocks(s) && BlocksDecoded(s) == Decoded(FullBlocks(s))
  {
    WellFormedInput(s);
    ReplacedPlusClean(FullBlocks(s));
  }

  // ---------------------------------------------------------------------------
  // The decoder

  /** Finding the `%` lanes, reading the two lanes after each as hex
      digits and merging them into the `%` lane. */
  method MergeBlock(chunk: M128) returns (hex: M128)
    ensures hex == MergedBlock(chunk)
    ensures forall y :: 0 <= y < 16 && chunk[y] != PERCENT ==> hex[y] == chunk[y]
    ensures EscapesOnly(chunk) ==> forall y :: 0 <= y < 16 ==> hex[y] == Merged(chunk, y)
  {
    var found := CmpEq(chunk, Set1(PERCENT));
    var firstAndSecond := DigitCandidates(chunk, found);
    var nibbles := HexDigits(firstAndSecond).0;
    hex := MergeHex(chunk, found, nibbles, found);
    MergeKeepsPlain(chunk);
    if EscapesOnly(chunk) {
      WellFormedMerge(chunk);
    }
  }

  /** The shuffle-map loop as written, over a 16-entry array. */
  method BuildShuffleMap(chunk: M128) returns (shuffleMap: seq<byte>, numJunk: nat)
    requires ShuffleMap(chunk).Some?
    ensures shuffleMap == ShuffleMap(chunk).value
    ensures numJunk == 2 * CountPct(chunk, 16)
  {
    var sm := new byte[16](_ => 0);
    numJunk := 0;
    var outI: nat := 0;
    assert sm[..] == Zeros();
    for inI := 0 to 16
      invariant outI <= inI
      invariant numJunk == 2 * CountPct(chunk, inI)
      invariant ShuffleMapFrom(chunk, sm[..], numJunk, outI, inI) == ShuffleMap(chunk)
    {
      ShuffleMapUnfold(chunk, sm[..], numJunk, outI, inI);
      ghost var before := sm[..];
      var junk: byte := numJunk % 0x100;  // `num_junk as u8`
      sm[outI] := junk;
      assert sm[..] == before[outI := junk];
      if chunk[inI] == PERCENT {
        numJunk := numJunk + 2;
        if numJunk > 2 {
          outI := outI - 2;
        }
      }
      outI := outI + 1;
    }
    shuffleMap := sm[..];
  }

  /** Appending the first block's output keeps the loop's account of the
      output. */
  lemma AppendBlock(done: seq<byte>, rest: seq<byte>, block: seq<byte>, total: seq<byte>)
    requires |rest| >= 16 && SafeBlocks(rest)
    requires done + BlocksDecoded(rest) == total
    ensures SafeBlock(LoadU(rest)) && SafeBlocks(rest[16..])
    ensures block == Block(LoadU(rest)) ==> (done + block) + BlocksDecoded(rest[16..]) == total
  {
    if block == Block(LoadU(rest)) {
      AppendAssoc(done, block, BlocksDecoded(rest[16..]));
    }
  }

  /** The loop body for one block: merge, build the map, shuffle, and keep
      the first `16 - num_junk` lanes. */
  method DecodeBlock(chunk: M128) returns (out: seq<byte>)
    requires SafeBlock(chunk)
    ensures out == Block(chunk)
  {
    var hex := MergeBlock(chunk);
    var shuffleMap, numJunk := BuildShuffleMap(chunk);
    var end := 16 - numJunk;
    var shuffled := Shuffle(hex, Add(Identity(), shuffleMap));
    out := shuffled[..end];
    assert out == Compacted(hex, shuffleMap, numJunk);
  }

  /** `url_decode`: each full block's output is appended to `dst`; `rest`
      is the part of `src` not yet consumed (the source reassigns `src`
      itself). The source panics on an unsafe block, hence the
      precondition. */
  method UrlDecode(src: seq<byte>, dst: ByteVec)
    requires SafeBlocks(src)
    modifies dst
    ensures dst.elems == old(dst.elems) + BlocksDecoded(src)
  {
    var rest := src;
    ghost var total := old(dst.elems) + BlocksDecoded(src);
    while |rest| >= 16
      invariant SafeBlocks(rest)
      invariant dst.elems + BlocksDecoded(rest) == total
      decreases |rest|
    {
      var out := DecodeBlock(LoadU(rest));
      AppendBlock(dst.elems, rest, out, total);
      dst.elems := dst.elems + out;
      rest := rest[16..];
    }
  }
}
