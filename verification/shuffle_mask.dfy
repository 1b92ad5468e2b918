/** The compaction table: for a bitmap of escape starts (bit `p` set when a
    `%hh` escape starts at lane `p`), entry `j` is how far output lane `j`
    must reach forward, so that output lane `j` reads input lane
    `j + map[j]` and the two digit lanes of every escape are squeezed out. */
module ShuffleMask {
  import opened Bytes

  // ---------------------------------------------------------------------------
  // Lanes of a bitmap

  /** Lane `x` is one of the two digit lanes of an escape. */
  predicate Junk(found: u16, x: nat) {
    (x >= 1 && Bit(found, x - 1)) || (x >= 2 && Bit(found, x - 2))
  }

  /** The number of lanes below `x` that survive compaction. */
  function KeptBefore(found: u16, x: nat): (k: nat)
    ensures k <= x
  {
    if x == 0 then 0 else KeptBefore(found, x - 1) + (if Junk(found, x - 1) then 0 else 1)
  }

  /** Lane `s` survives compaction and is the `j`-th lane that does: the
      entry `v` for output lane `j` is right. */
  predicate Correct(found: u16, j: nat, v: byte) {
    !Junk(found, j + v) && KeptBefore(found, j + v) == j
  }

  /** A bitmap the SSE decoder can produce: escapes start in lanes 0 to 13
      and any two of them are at least three lanes apart. */
  predicate ValidBitmap(found: u16) {
    !Bit(found, 14) && !Bit(found, 15) &&
    forall i, j :: 0 <= i < j < 16 && j < i + 3 && Bit(found, i) ==> !Bit(found, j)
  }

  /** The set bits at `t` and above (the iterations that can still move
      `out_i` back). */
  function Rem(found: u16, t: nat): nat
    decreases 16 - t
  {
    if t >= 16 then 0 else (if Bit(found, t) then 1 else 0) + Rem(found, t + 1)
  }

  lemma RemStep(found: u16, t: nat)
    ensures Rem(found, t) == (if Bit(found, t) then 1 else 0) + Rem(found, t + 1)
  {
    if t >= 16 {
      NoHighBits(found, t);
    }
  }

  /** A `u16` has no bit at 16 or above. */
  lemma NoHighBits(found: u16, t: nat)
    requires t >= 16
    ensures !Bit(found, t)
  {
    Pow2Values();
    BitBelow(found, 16, t);
  }

  /** A set bit of a `u16` is one of its sixteen lanes. */
  lemma SetBitLow(found: u16, t: nat)
    ensures Bit(found, t) ==> t < 16
  {
    if t >= 16 {
      NoHighBits(found, t);
    }
  }

  // ---------------------------------------------------------------------------
  // The loop of `build_mask_128`

  /** The `while out_i < 16` loop from the state where iteration `t` is about
      to run (`mask == 1 << t`). */
  function MaskFrom(found: u16, sm: seq<byte>, numJunk: nat, outI: nat, t: nat): (r: seq<byte>)
    requires |sm| == 16
    ensures |r| == 16
    decreases 16 - outI + 2 * Rem(found, t)
  {
    if outI >= 16 then sm
    else
      RemStep(found, t);
      var sm' := sm[outI := numJunk % 0x100];
      var numJunk' := if Bit(found, t) then numJunk + 2 else numJunk;
      var outI' := if Bit(found, t) && numJunk' > 2 && outI >= 2 then outI - 2 else outI;
      MaskFrom(found, sm', numJunk', outI' + 1, t + 1)
  }

  /** One iteration of the loop. */
  lemma MaskFromUnfold(found: u16, sm: seq<byte>, numJunk: nat, outI: nat, t: nat)
    requires |sm| == 16 && outI < 16
    ensures var sm' := sm[outI := numJunk % 0x100];
            var numJunk' := if Bit(found, t) then numJunk + 2 else numJunk;
            var outI' := if Bit(found, t) && numJunk' > 2 && outI >= 2 then outI - 2 else outI;
            MaskFrom(found, sm, numJunk, outI, t) == MaskFrom(found, sm', numJunk', outI' + 1, t + 1)
  {
  }

  function Zeros(): seq<byte> {
    seq(16, _ => 0)
  }

  /** `build_mask_128(found_mask)`. */
  function BuildMask(found: u16): (r: seq<byte>)
    ensures |r| == 16
  {
    MaskFrom(found, Zeros(), 0, 0, 0)
  }

  /** `build_mask_128` as written: the array is filled in place. */
  method BuildMask128(foundMask: u16) returns (r: seq<byte>)
    ensures r == BuildMask(foundMask)
    ensures r[0] == 0 && AllSmall(foundMask, r)
    ensures ValidBitmap(foundMask) ==> AllCompact(foundMask, r)
  {
    var sm := new byte[16](_ => 0);
    var numJunk: nat := 0;
    var outI: nat := 0;
    var mask: u16 := 1;
    ghost var t: nat := 0;
    ghost var goal := BuildMask(foundMask);
    assert sm[..] == Zeros();
    while outI < 16
      invariant sm.Length == 16
      invariant mask == MaskAt(t)
      invariant MaskFrom(foundMask, sm[..], numJunk, outI, t) == goal
      decreases 16 - outI + 2 * Rem(foundMask, t)
    {
      MaskFromUnfold(foundMask, sm[..], numJunk, outI, t);
      RemStep(foundMask, t);
      TestBit(foundMask, t);
      ghost var before := sm[..];
      sm[outI] := numJunk % 0x100;
      assert sm[..] == before[outI := sm[outI]];
      if BitAnd(foundMask, mask) > 0 {
        numJunk := numJunk + 2;
        if numJunk > 2 && outI >= 2 {
          outI := outI - 2;
        }
      }
      MaskAtStep(t);
      mask := (mask * 2) % 0x10000;  // `mask << 1` on a `u16`
      outI := outI + 1;
      t := t + 1;
    }
    r := sm[..];
    BuildMaskShape(foundMask);
    if ValidBitmap(foundMask) {
      BuildMaskCompacts(foundMask);
    }
  }

  /** The loop's `mask` before iteration `t`: `1 << t`, shifted out to 0
      after 16 steps. */
  function MaskAt(t: nat): u16 {
    Pow2Values();
    if t < 16 then (Pow2Mono(t, 15); Pow2(t)) else 0
  }

  lemma MaskAtStep(t: nat)
    ensures MaskAt(t + 1) == (MaskAt(t) * 2) % 0x10000
  {
    Pow2Values();
    if t < 15 {
      Pow2Mono(t + 1, 15);
    }
  }

  /** `found_mask & mask > 0` tests bit `t`. */
  lemma TestBit(found: u16, t: nat)
    ensures (BitAnd(found, MaskAt(t)) > 0) == Bit(found, t)
  {
    if t < 16 {
      AndPow2(found, t);
    } else {
      NoHighBits(found, t);
    }
  }

  /** Every output lane that is kept (`j < 16 - 2k` for `k` escapes) is
      compacted right. */
  predicate AllCompact(found: u16, sm: seq<byte>)
    requires |sm| == 16
  {
    forall j :: 0 <= j < 16 - 2 * PopCount(found) ==> Compacts(found, j, sm[j])
  }

  /** Output lane `j` of a block whose bitmap is `found` reads an input lane
      below 16 that survives compaction and is the `j`-th such lane. */
  predicate Compacts(found: u16, j: nat, v: byte) {
    j + v < 16 && Correct(found, j, v)
  }

  // ---------------------------------------------------------------------------
  // Shape of every entry, for any bitmap

  /** An entry the loop can write: even and at most twice the escapes. */
  predicate Small(found: u16, v: byte) {
    v % 2 == 0 && v <= 2 * PopCount(found)
  }

  predicate AllSmall(found: u16, sm: seq<byte>) {
    forall j :: 0 <= j < |sm| ==> Small(found, sm[j])
  }

  predicate Shape(found: u16, sm: seq<byte>, numJunk: nat, outI: nat, t: nat) {
    |sm| == 16 && sm[0] == 0 && (t >= 1 ==> outI >= 1) && (t == 0 ==> outI == 0) &&
    numJunk == 2 * CountBits(found, t) && AllSmall(found, sm)
  }

  /** Set bits below `t` are at most all of them, and all of them from 16 on. */
  lemma {:induction false} CountBitsMono(found: u16, t: nat)
    ensures CountBits(found, t) <= PopCount(found)
    ensures t >= 16 ==> CountBits(found, t) == PopCount(found)
    decreases if t <= 16 then 16 - t else t
  {
    if t > 16 {
      CountBitsMono(found, t - 1);
      NoHighBits(found, t - 1);
    } else if t < 16 {
      CountBitsMono(found, t + 1);
    }
  }

  /** The value `num_junk as u8` written by iteration `t`. */
  lemma WrittenSmall(found: u16, numJunk: nat, t: nat)
    requires numJunk == 2 * CountBits(found, t)
    ensures Small(found, numJunk % 0x100)
  {
    CountBitsMono(found, t);
    SmallValue(found, numJunk, CountBits(found, t));
  }

  lemma SmallValue(found: u16, numJunk: nat, c: nat)
    requires numJunk == 2 * c && c <= PopCount(found)
    ensures Small(found, numJunk % 0x100)
  {
  }

  lemma AllSmallUpdate(found: u16, sm: seq<byte>, k: nat, v: byte)
    requires k < |sm| && Small(found, v) && AllSmall(found, sm)
    ensures AllSmall(found, sm[k := v])
  {
    var sm' := sm[k := v];
    forall j | 0 <= j < |sm'| ensures Small(found, sm'[j]) {
      assert sm'[j] == if j == k then v else sm[j];
    }
  }

  lemma {:induction false} ShapeStep(found: u16, sm: seq<byte>, numJunk: nat, outI: nat, t: nat)
    requires Shape(found, sm, numJunk, outI, t) && outI < 16
    ensures var sm' := sm[outI := numJunk % 0x100];
            var numJunk' := if Bit(found, t) then numJunk + 2 else numJunk;
            var outI' := if Bit(found, t) && numJunk' > 2 && outI >= 2 then outI - 2 else outI;
            Shape(found, sm', numJunk', outI' + 1, t + 1)
  {
    var v := numJunk % 0x100;
    WrittenSmall(found, numJunk, t);
    AllSmallUpdate(found, sm, outI, v);
    assert CountBits(found, t + 1) == CountBits(found, t) + (if Bit(found, t) then 1 else 0);
    if t == 0 {
      assert v == 0;
    }
  }

  lemma {:induction false} MaskFromShape(found: u16, sm: seq<byte>, numJunk: nat, outI: nat, t: nat)
    requires Shape(found, sm, numJunk, outI, t)
    ensures var r := MaskFrom(found, sm, numJunk, outI, t);
            r[0] == 0 && AllSmall(found, r)
    decreases 16 - outI + 2 * Rem(found, t)
  {
    if outI < 16 {
      RemStep(found, t);
      MaskFromUnfold(found, sm, numJunk, outI, t);
      ShapeStep(found, sm, numJunk, outI, t);
      var sm' := sm[outI := numJunk % 0x100];
      var numJunk' := if Bit(found, t) then numJunk + 2 else numJunk;
      var outI' := if Bit(found, t) && numJunk' > 2 && outI >= 2 then outI - 2 else outI;
      MaskFromShape(found, sm', numJunk', outI' + 1, t + 1);
    }
  }

  /** Every entry is even and at most twice the number of escapes, and the
      first entry is 0 — for every bitmap, valid or not. */
  lemma BuildMaskShape(found: u16)
    ensures BuildMask(found)[0] == 0 && AllSmall(found, BuildMask(found))
  {
    MaskFromShape(found, Zeros(), 0, 0, 0);
  }

  // ---------------------------------------------------------------------------
  // Compaction, for a valid bitmap

  /** How many lanes below `t + 2` survive: two lanes go for every escape
      below `t`, one more if an escape starts at `t`. */
  lemma {:induction false} KeptFormula(found: u16, t: nat)
    requires ValidBitmap(found)
    ensures KeptBefore(found, t + 2) == t + 2 - 2 * CountBits(found, t) - (if Bit(found, t) then 1 else 0)
  {
    if t > 0 {
      KeptFormula(found, t - 1);
      if Bit(found, t - 1) {
        SetBitLow(found, t);
        assert !Bit(found, t);
      }
    }
  }

  lemma {:induction false} KeptMono(found: u16, x: nat, y: nat)
    requires x <= y
    ensures KeptBefore(found, x) <= KeptBefore(found, y)
    decreases y - x
  {
    if x < y {
      KeptMono(found, x, y - 1);
    }
  }

  /** The state of `build_mask_128`'s loop before iteration `t`, for a valid
      bitmap with `c` escapes below `t`: `num_junk == 2c`, `out_i` is `t`
      before the first escape and `t - 2c + 2` after it, and every entry
      below `out_i` is right except the last one when an escape starts at
      `t` (that entry is rewritten after `out_i` steps back). */
  predicate Inv(found: u16, sm: seq<byte>, numJunk: nat, outI: nat, t: nat) {
    var c := CountBits(found, t);
    |sm| == 16 && outI <= 16 && numJunk == 2 * c &&
    outI == (if c == 0 then t else t - 2 * c + 2) &&
    Prefix(found, sm, if c >= 1 && Bit(found, t) && outI >= 1 then outI - 1 else outI)
  }

  /** The first `n` entries are right. */
  predicate Prefix(found: u16, sm: seq<byte>, n: nat)
    requires n <= |sm|
  {
    forall j :: 0 <= j < n ==> Correct(found, j, sm[j])
  }

  lemma PrefixUpdate(found: u16, sm: seq<byte>, n: nat, k: nat, v: byte)
    requires n <= k < |sm| && Prefix(found, sm, n)
    ensures Prefix(found, sm[k := v], n)
  {
    var sm' := sm[k := v];
    forall j | 0 <= j < n ensures Correct(found, j, sm'[j]) {
      assert sm'[j] == sm[j];
    }
  }

  /** Writing the right entry at `n` extends a right prefix of length `n`. */
  lemma PrefixWrite(found: u16, sm: seq<byte>, n: nat, v: byte)
    requires n < |sm| && Prefix(found, sm, n) && Correct(found, n, v)
    ensures Prefix(found, sm[n := v], n + 1)
  {
    PrefixUpdate(found, sm, n, n, v);
  }

  /** Before the first escape, the lane `t` is kept and is the `t`-th kept lane. */
  lemma KeptNoEscape(found: u16, t: nat)
    requires ValidBitmap(found) && CountBits(found, t) == 0
    ensures Correct(found, t, 0)
  {
    if t >= 2 {
      KeptFormula(found, t - 2);
      assert CountBits(found, t) == CountBits(found, t - 2) + (if Bit(found, t - 2) then 1 else 0) + (if Bit(found, t - 1) then 1 else 0);
    }
  }

  /** Iteration `t` before the first escape: lane `t` is output lane `t`. */
  lemma StepBeforeFirst(found: u16, sm: seq<byte>, numJunk: nat, outI: nat, t: nat)
    requires ValidBitmap(found) && Inv(found, sm, numJunk, outI, t) && outI < 16
    requires CountBits(found, t) == 0
    ensures Inv(found, sm[outI := numJunk % 0x100], if Bit(found, t) then 2 else 0, outI + 1, t + 1)
  {
    assert outI == t && numJunk == 0 && Prefix(found, sm, t);
    SmallMod(numJunk);
    KeptNoEscape(found, t);
    PrefixWrite(found, sm, t, 0);
    var sm' := sm[t := 0];
    if Bit(found, t) {
      FirstEscape(found, sm', t);
    } else {
      assert CountBits(found, t + 1) == 0;
      assert Inv(found, sm', 0, t + 1, t + 1);
    }
  }

  /** Iteration `t` at the first escape: `out_i` does not step back, and the
      entry just written stays right because lane `t + 1` starts no escape. */
  lemma FirstEscape(found: u16, sm: seq<byte>, t: nat)
    requires ValidBitmap(found) && CountBits(found, t) == 0 && Bit(found, t)
    requires t < 16 && |sm| == 16 && Prefix(found, sm, t + 1)
    ensures Inv(found, sm, 2, t + 1, t + 1)
  {
    assert CountBits(found, t + 1) == 1;
    SetBitLow(found, t);
    assert !Bit(found, t + 1);
  }

  /** Iteration `t` after the first escape, lane `t` not an escape: the entry
      written is for input lane `t + 2`, which is wrong only when an escape
      starts at `t + 1` (the next iteration then steps back over it). */
  lemma StepPlain(found: u16, sm: seq<byte>, numJunk: nat, outI: nat, t: nat)
    requires ValidBitmap(found) && Inv(found, sm, numJunk, outI, t) && outI < 16
    requires CountBits(found, t) >= 1 && !Bit(found, t)
    ensures Inv(found, sm[outI := numJunk % 0x100], numJunk, outI + 1, t + 1)
  {
    var c := CountBits(found, t);
    assert CountBits(found, t + 1) == c;
    EscapesSpread(found, t);
    assert outI == t - 2 * c + 2 && c < 16 && numJunk == 2 * c;
    var v := numJunk % 0x100;
    SmallMod(numJunk);
    assert Prefix(found, sm, outI);
    if Bit(found, t + 1) {
      PlainBeforeEscape(found, sm, outI, v, t, c);
    } else {
      PlainKept(found, sm, outI, v, t, c);
    }
  }

  /** The entry written just before an escape is left for the next
      iteration to overwrite. */
  lemma PlainBeforeEscape(found: u16, sm: seq<byte>, outI: nat, v: byte, t: nat, c: nat)
    requires CountBits(found, t + 1) == c >= 1 && Bit(found, t + 1) && v == 2 * c
    requires |sm| == 16 && outI < 16 && outI == t - 2 * c + 2 && Prefix(found, sm, outI)
    ensures Inv(found, sm[outI := v], v, outI + 1, t + 1)
  {
    PrefixUpdate(found, sm, outI, outI, v);
  }

  /** Otherwise the entry written is right. */
  lemma PlainKept(found: u16, sm: seq<byte>, outI: nat, v: byte, t: nat, c: nat)
    requires ValidBitmap(found) && CountBits(found, t) == c >= 1 && v == 2 * c
    requires CountBits(found, t + 1) == c && !Bit(found, t) && !Bit(found, t + 1)
    requires |sm| == 16 && outI < 16 && outI == t - 2 * c + 2 && Prefix(found, sm, outI)
    ensures Inv(found, sm[outI := v], v, outI + 1, t + 1)
  {
    PlainCorrect(found, t, c);
    PrefixWrite(found, sm, outI, v);
  }

  lemma SmallMod(x: nat)
    requires x < 0x100
    ensures x % 0x100 == x
  {
  }

  /** After `c` escapes, a lane `t + 2` that is not a digit lane is output
      lane `t - 2c + 2`. */
  lemma PlainCorrect(found: u16, t: nat, c: nat)
    requires ValidBitmap(found) && c == CountBits(found, t) && 1 <= c
    requires !Bit(found, t) && !Bit(found, t + 1) && 2 * c <= t + 2
    ensures 2 * c < 0x100 && Correct(found, t - 2 * c + 2, 2 * c)
  {
    KeptFormula(found, t);
    CountBitsMono(found, t);
  }

  /** Iteration `t` at a later escape: `out_i` steps back over the entry
      written for its first digit lane. */
  lemma StepEscape(found: u16, sm: seq<byte>, numJunk: nat, outI: nat, t: nat)
    requires ValidBitmap(found) && Inv(found, sm, numJunk, outI, t) && outI < 16
    requires CountBits(found, t) >= 1 && Bit(found, t)
    ensures numJunk + 2 > 2 && outI >= 2
    ensures Inv(found, sm[outI := numJunk % 0x100], numJunk + 2, outI - 1, t + 1)
  {
    var c := CountBits(found, t);
    assert CountBits(found, t + 1) == c + 1;
    EscapesSpread(found, t);
    SetBitLow(found, t + 1);
    assert !Bit(found, t + 1);
    PrefixUpdate(found, sm, outI - 1, outI, numJunk % 0x100);
  }

  /** One iteration keeps the invariant. */
  lemma StepInv(found: u16, sm: seq<byte>, numJunk: nat, outI: nat, t: nat)
    requires ValidBitmap(found) && Inv(found, sm, numJunk, outI, t) && outI < 16
    ensures var sm' := sm[outI := numJunk % 0x100];
            var numJunk' := if Bit(found, t) then numJunk + 2 else numJunk;
            var outI' := if Bit(found, t) && numJunk' > 2 && outI >= 2 then outI - 2 else outI;
            Inv(found, sm', numJunk', outI' + 1, t + 1)
  {
    if CountBits(found, t) == 0 {
      StepBeforeFirst(found, sm, numJunk, outI, t);
    } else if Bit(found, t) {
      StepEscape(found, sm, numJunk, outI, t);
    } else {
      StepPlain(found, sm, numJunk, outI, t);
    }
  }

  /** Escapes sit at least three lanes apart, so `c` of them below `t`
      leave `t >= 3c - 2`, and `t >= 3c` when another one starts at `t`. */
  lemma {:induction false} EscapesSpread(found: u16, t: nat)
    requires ValidBitmap(found)
    ensures 3 * CountBits(found, t) <= t + 2
    ensures Bit(found, t) ==> 3 * CountBits(found, t) <= t
  {
    if t > 0 {
      EscapesSpread(found, t - 1);
      if Bit(found, t) {
        SetBitLow(found, t);
        assert !Bit(found, t - 1);
        if t >= 2 {
          assert !Bit(found, t - 2);
          EscapesSpread(found, t - 2);
          assert CountBits(found, t) == CountBits(found, t - 2);
          if t >= 3 {
            EscapesSpread(found, t - 3);
            assert CountBits(found, t - 2) == CountBits(found, t - 3) + (if Bit(found, t - 3) then 1 else 0);
          }
        }
      }
    }
  }

  lemma {:induction false} MaskFromCorrect(found: u16, sm: seq<byte>, numJunk: nat, outI: nat, t: nat)
    requires ValidBitmap(found) && Inv(found, sm, numJunk, outI, t)
    ensures Prefix(found, MaskFrom(found, sm, numJunk, outI, t), 16)
    decreases 16 - outI + 2 * Rem(found, t)
  {
    if outI < 16 {
      RemStep(found, t);
      MaskFromUnfold(found, sm, numJunk, outI, t);
      StepInv(found, sm, numJunk, outI, t);
      var sm' := sm[outI := numJunk % 0x100];
      var numJunk' := if Bit(found, t) then numJunk + 2 else numJunk;
      var outI' := if Bit(found, t) && numJunk' > 2 && outI >= 2 then outI - 2 else outI;
      MaskFromCorrect(found, sm', numJunk', outI' + 1, t + 1);
    } else {
      InvDone(found, sm, numJunk, outI, t);
    }
  }

  /** When `out_i` reaches 16 every entry is right. */
  lemma InvDone(found: u16, sm: seq<byte>, numJunk: nat, outI: nat, t: nat)
    requires Inv(found, sm, numJunk, outI, t) && outI >= 16
    ensures Prefix(found, sm, 16)
  {
    assert t >= 16;
    NoHighBits(found, t);
  }

  /** For a valid bitmap with `k` escapes, output lane `j < 16 - 2k` reads
      input lane `j + sm[j]`, which is below 16, is not a digit lane of any
      escape, and is the `j`-th such lane: compaction keeps order and drops
      exactly two lanes per escape. */
  lemma BuildMaskCompacts(found: u16)
    requires ValidBitmap(found)
    ensures AllCompact(found, BuildMask(found))
  {
    MaskFromCorrect(found, Zeros(), 0, 0, 0);
    var r := BuildMask(found);
    assert Prefix(found, r, 16);
    KeptFormula(found, 14);
    assert CountBits(found, 16) == CountBits(found, 14);
    forall j | 0 <= j < 16 - 2 * PopCount(found)
      ensures Compacts(found, j, r[j])
    {
      if j + r[j] >= 16 {
        KeptMono(found, 16, j + r[j]);
      }
    }
  }

  /** `build_mask_128(0b10001)`: escapes at lanes 0 and 4. */
  lemma BuildMaskExample()
    ensures BuildMask(0x11) == [0, 2, 2, 4, 4, 4, 4, 4, 4, 4, 4, 4, 4, 4, 4, 4]
  {
    assert Bit(0x11, 0) && !Bit(0x11, 1) && !Bit(0x11, 2) && !Bit(0x11, 3) && Bit(0x11, 4);
    forall t: nat | t >= 5 ensures !Bit(0x11, t) {
      Pow2Values();
      BitBelow(0x11, 5, t);
    }
    var z := Zeros();
    assert BuildMask(0x11) == MaskFrom(0x11, z[0 := 0], 2, 1, 1);
    var s1 := z[0 := 0][1 := 2];
    assert BuildMask(0x11) == MaskFrom(0x11, s1, 2, 2, 2);
    var s3 := s1[2 := 2][3 := 2];
    assert BuildMask(0x11) == MaskFrom(0x11, s3, 2, 4, 4);
    var s4 := s3[4 := 2];
    assert BuildMask(0x11) == MaskFrom(0x11, s4, 4, 3, 5);
    MaskFromNoBits(0x11, s4, 4, 3, 5);
  }

  /** Once no bit is left at `t` or above, the loop fills the rest with
      `num_junk`. */
  lemma {:induction false} MaskFromNoBits(found: u16, sm: seq<byte>, numJunk: nat, outI: nat, t: nat)
    requires |sm| == 16 && forall u: nat :: u >= t ==> !Bit(found, u)
    ensures MaskFrom(found, sm, numJunk, outI, t) ==
            seq(16, j requires 0 <= j < 16 => if j < outI then sm[j] else numJunk % 0x100)
    decreases 16 - outI
  {
    if outI < 16 {
      MaskFromUnfold(found, sm, numJunk, outI, t);
      MaskFromNoBits(found, sm[outI := numJunk % 0x100], numJunk, outI + 1, t + 1);
    }
  }

  // ---------------------------------------------------------------------------
  // The table

  /** The table `main` generates: `build_mask_128(i)` for every 14-bit
      bitmap `i` in `0 ..= 16383`. */
  method BuildTable() returns (table: seq<seq<byte>>)
    ensures |table| == TABLE_SIZE
    ensures forall i :: 0 <= i < TABLE_SIZE ==> table[i] == BuildMask(i)
  {
    table := [];
    var i: u16 := 0;
    while i < TABLE_SIZE
      invariant i <= TABLE_SIZE && |table| == i
      invariant forall k :: 0 <= k < i ==> table[k] == BuildMask(k)
    {
      var entry := BuildMask128(i);
      table := table + [entry];
      i := i + 1;
    }
  }

  /** `16383 + 1` entries. */
  const TABLE_SIZE: nat := 0x4000

  /** Every bitmap the decoder can produce has an entry in the table: with
      lanes 14 and 15 clear it is below `2^14`. */
  lemma ValidInTable(found: u16)
    requires !Bit(found, 14) && !Bit(found, 15)
    ensures found < TABLE_SIZE
  {
    Pow2Values();
    TopBitClear(found, 15);
    TopBitClear(found, 14);
  }
}
