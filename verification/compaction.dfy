/** Why the table lookup decodes a block: once every escape's value sits in
    the lane of its `%`, keeping the lanes that are not digit lanes, in
    order, is exactly what the scalar decoder yields for the block. */
module Compaction {
  import opened Bytes
  import opened Fallback
  import opened ShuffleMask

  /** Bit `i` of `found` is set exactly when a complete escape starts at lane
      `i` of the block `t` (at most 16 lanes). */
  predicate Marks(found: u16, t: seq<byte>) {
    |t| <= 16 && forall i :: 0 <= i < 16 ==> (Bit(found, i) <==> EscapeAt(t, i))
  }

  /** The byte lane `y` holds once escapes are merged: the decoded byte at
      the `%` of an escape, the input byte everywhere else. */
  function Merged(t: seq<byte>, y: nat): byte
    requires y < |t|
  {
    if EscapeAt(t, y) then Unhex(t[y + 1], t[y + 2]) else t[y]
  }

  /** The escapes of a block form a bitmap the table generator accepts. */
  lemma MarksValid(found: u16, t: seq<byte>)
    requires Marks(found, t)
    ensures ValidBitmap(found)
  {
    assert !EscapeAt(t, 14) && !EscapeAt(t, 15);
    forall i, j | 0 <= i < j < 16 && j < i + 3 && Bit(found, i)
      ensures !Bit(found, j)
    {
      assert EscapeAt(t, i);
      assert !IsHexDigit(PERCENT);
    }
  }

  /** The merged lanes from `x` on that survive compaction, in order. */
  function Squeeze(found: u16, t: seq<byte>, x: nat): seq<byte>
    decreases |t| - x
  {
    if x >= |t| then []
    else (if Junk(found, x) then [] else [Merged(t, x)]) + Squeeze(found, t, x + 1)
  }

  /** Decoding the block from any lane that is not a digit lane yields the
      surviving merged lanes from there on. */
  lemma {:induction false} SqueezeDecodes(found: u16, t: seq<byte>, x: nat)
    requires Marks(found, t) && x <= |t| && !Junk(found, x)
    ensures PercentDecoded(t[x..]) == Squeeze(found, t, x)
    decreases |t| - x
  {
    if x < |t| {
      EscapeAtShift(t, x, 0);
      assert !IsHexDigit(PERCENT);
      if EscapeAt(t, x) {
        assert t[x..][3..] == t[x + 3..];
        assert Bit(found, x);
        assert !Bit(found, x + 1) && !Bit(found, x + 2);
        assert Squeeze(found, t, x + 1) == Squeeze(found, t, x + 3);
        SqueezeDecodes(found, t, x + 3);
      } else {
        assert t[x..][1..] == t[x + 1..];
        SqueezeDecodes(found, t, x + 1);
      }
    }
  }

  /** One entry per surviving lane. */
  lemma {:induction false} SqueezeLength(found: u16, t: seq<byte>, x: nat)
    requires x <= |t|
    ensures |Squeeze(found, t, x)| == KeptBefore(found, |t|) - KeptBefore(found, x)
    decreases |t| - x
  {
    if x < |t| {
      SqueezeLength(found, t, x + 1);
      KeptMono(found, x + 1, |t|);
    }
  }

  /** The surviving lane `y` is entry `KeptBefore(y) - KeptBefore(x)`. */
  lemma {:induction false} SqueezeAt(found: u16, t: seq<byte>, x: nat, y: nat)
    requires x <= y < |t| && !Junk(found, y)
    ensures KeptBefore(found, x) <= KeptBefore(found, y)
    ensures KeptBefore(found, y) - KeptBefore(found, x) < |Squeeze(found, t, x)|
    ensures Squeeze(found, t, x)[KeptBefore(found, y) - KeptBefore(found, x)] == Merged(t, y)
    decreases y - x
  {
    SqueezeLength(found, t, x);
    KeptMono(found, x, y);
    KeptMono(found, y + 1, |t|);
    if x < y {
      SqueezeAt(found, t, x + 1, y);
    }
  }

  /** No bit at or above `n` up to 16: the count below `n` is the whole count. */
  lemma {:induction false} CountBitsRest(found: u16, n: nat)
    requires n <= 16 && forall i :: n <= i < 16 ==> !Bit(found, i)
    ensures CountBits(found, n) == PopCount(found)
    decreases 16 - n
  {
    if n < 16 {
      CountBitsRest(found, n + 1);
    }
  }

  /** A block of `n` lanes keeps `n - 2k` of them for `k` escapes. */
  lemma KeptTotal(found: u16, t: seq<byte>)
    requires Marks(found, t) && 2 <= |t|
    ensures KeptBefore(found, |t|) == |t| - 2 * PopCount(found)
  {
    MarksValid(found, t);
    KeptFormula(found, |t| - 2);
    CountBitsRest(found, |t| - 2);
  }

  /** The block theorem: when lane `y < |t|` holds the merged byte and the
      table entries compact `found`, reading lane `j + shift[j]` for every
      output lane `j` below `|t| - 2k` spells out exactly the decoded block. */
  lemma CompactDecodes(found: u16, t: seq<byte>, lanes: seq<byte>, shift: seq<byte>)
    requires Marks(found, t) && 2 <= |t| && |lanes| == 16 && |shift| == 16
    requires forall y :: 0 <= y < |t| ==> lanes[y] == Merged(t, y)
    requires AllCompact(found, shift)
    ensures |PercentDecoded(t)| == |t| - 2 * PopCount(found)
    ensures forall j :: 0 <= j < |PercentDecoded(t)| ==>
              j + shift[j] < |t| && PercentDecoded(t)[j] == lanes[j + shift[j]]
  {
    assert t[0..] == t;
    SqueezeDecodes(found, t, 0);
    SqueezeLength(found, t, 0);
    KeptTotal(found, t);
    forall j | 0 <= j < |PercentDecoded(t)|
      ensures j + shift[j] < |t| && PercentDecoded(t)[j] == lanes[j + shift[j]]
    {
      var y := j + shift[j];
      assert Compacts(found, j, shift[j]);
      if y >= |t| {
        KeptMono(found, |t|, y);
      }
      SqueezeAt(found, t, 0, y);
    }
  }
}
