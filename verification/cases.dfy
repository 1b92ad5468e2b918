/** The decoders' unit cases, stated on the specifications: what the scalar
    decoder makes of each input, and what the AVX decoder appends for a
    block whose every `%` is an escape. */
module Cases {
  import opened Bytes
  import opened Fallback
  import opened Simd
  import opened Avx

  /** Input without `+` is only percent-decoded. */
  lemma DecodedNoPlus(s: seq<byte>)
    requires PLUS !in s
    ensures Decoded(s) == PercentDecoded(s)
  {
    ReplacedPlusClean(s);
  }

  /** Input without `%` decodes to itself. */
  lemma NoPercent(s: seq<byte>)
    requires PERCENT !in s
    ensures PercentDecoded(s) == s
  {
    NoPercentNoEscape(s, 0);
    NoEscapeIdentity(s);
  }

  /** An escape, a literal, an escape, a literal, then bytes without `%`. */
  lemma TwoEscapes(s: seq<byte>)
    requires |s| >= 8 && EscapeAt(s, 0) && s[3] != PERCENT && EscapeAt(s, 4) && s[7] != PERCENT
    requires PERCENT !in s[8..]
    ensures PercentDecoded(s) == [Unhex(s[1], s[2]), s[3], Unhex(s[5], s[6]), s[7]] + s[8..]
  {
    DecodeStep(s);
    var s1 := s[3..];
    DecodeStep(s1);
    var s2 := s1[1..];
    assert EscapeAt(s2, 0);
    DecodeStep(s2);
    var s3 := s2[3..];
    DecodeStep(s3);
    var s4 := s3[1..];
    assert s4 == s[8..];
    NoPercent(s4);
  }

  /** An escape at the start of an input whose first three bytes hold no
      `+` yields the byte it spells, and decoding goes on after it: `+` is
      replaced before escapes are decoded, never after. */
  lemma DecodedEscape(s: seq<byte>)
    requires EscapeAt(s, 0) && s[1] != PLUS && s[2] != PLUS
    ensures Decoded(s) == [Unhex(s[1], s[2])] + Decoded(s[3..])
  {
    var r := ReplacedPlus(s);
    assert r[..3] == s[..3];
    assert EscapeAt(r, 0);
    DecodeStep(r);
    assert r[3..] == ReplacedPlus(s[3..]);
  }

  /** `%2B` and `%2b` decode to `+`, which stays `+`. */
  lemma EncodedPlus(s: seq<byte>)
    requires |s| >= 3 && s[0] == PERCENT && s[1] == 0x32 && (s[2] == 0x42 || s[2] == 0x62)
    ensures Decoded(s) == [PLUS] + Decoded(s[3..])
  {
    assert EscapeAt(s, 0) && Unhex(s[1], s[2]) == PLUS;
    DecodedEscape(s);
  }

  /** `%AA` decodes to the byte 0xAA, above the ASCII range. */
  lemma HighEscape(s: seq<byte>)
    requires |s| >= 3 && s[0] == PERCENT && s[1] == 0x41 && s[2] == 0x41
    ensures Decoded(s) == [0xAA] + Decoded(s[3..])
  {
    assert EscapeAt(s, 0) && Unhex(s[1], s[2]) == 0xAA;
    DecodedEscape(s);
  }

  const DIGITS: seq<byte> := [0x31, 0x32, 0x33, 0x34, 0x35, 0x36, 0x37, 0x38]

  lemma FallbackAaBb(s: seq<byte>)
    requires |s| == 16 && s[..8] == [PERCENT, 0x34, 0x31, 0x61, PERCENT, 0x34, 0x32, 0x62]
    requires s[8..] == DIGITS
    ensures Decoded(s) == [0x41, 0x61, 0x42, 0x62] + DIGITS
  {
    assert s == s[..8] + s[8..];
    DecodedNoPlus(s);
    TwoEscapes(s);
  }

  /** `%4Ba%4Cb12345678` and `%4ba%4cb12345678` both decode to
      `KaLb12345678`. */
  lemma FallbackKaLb(s: seq<byte>)
    requires |s| == 16 && s[8..] == DIGITS
    requires s[..8] == [PERCENT, 0x34, 0x42, 0x61, PERCENT, 0x34, 0x43, 0x62] ||
             s[..8] == [PERCENT, 0x34, 0x62, 0x61, PERCENT, 0x34, 0x63, 0x62]
    ensures Decoded(s) == [0x4B, 0x61, 0x4C, 0x62] + DIGITS
  {
    assert s == s[..8] + s[8..];
    DecodedNoPlus(s);
    TwoEscapes(s);
  }

  /** `%%12` followed by bytes without `%` or `+` (`345678901234` in the
      unit case): the first `%` is not followed by two digits and passes
      through; the second starts the escape `%12`. */
  lemma FallbackInvalidChars(s: seq<byte>)
    requires |s| >= 4 && s[..4] == [PERCENT, PERCENT, 0x31, 0x32]
    requires PERCENT !in s[4..] && PLUS !in s[4..]
    ensures Decoded(s) == [PERCENT, 0x12] + s[4..]
  {
    assert s == s[..4] + s[4..];
    DecodedNoPlus(s);
    assert !IsHexDigit(PERCENT);
    DecodeStep(s);
    var s1 := s[1..];
    assert EscapeAt(s1, 0);
    DecodeStep(s1);
    assert s1[3..] == s[4..];
    NoPercent(s[4..]);
  }

  /** `a+a+a+a+a+a+a+a+` decodes to `a a a a a a a a `. */
  lemma FallbackReplacePlus(s: seq<byte>)
    requires |s| == 16 && forall i :: 0 <= i < 16 ==> s[i] == if i % 2 == 0 then 0x61 else PLUS
    ensures Decoded(s) == seq(16, i requires 0 <= i < 16 => if i % 2 == 0 then 0x61 else SPACE)
  {
    var r := ReplacedPlus(s);
    assert forall i :: 0 <= i < 16 ==> r[i] == if i % 2 == 0 then 0x61 else SPACE;
    NoPercent(r);
  }

  /** A block whose only `%` bytes start escapes at lanes 0 and 4 is
      well formed, so the AVX decoder appends its percent-decoding. */
  lemma WellFormedOne(s: seq<byte>)
    requires |s| == 16 && EscapeAt(s, 0) && EscapeAt(s, 4) && PERCENT !in s[8..]
    requires s[1] != PERCENT && s[2] != PERCENT && s[3] != PERCENT
    requires s[5] != PERCENT && s[6] != PERCENT && s[7] != PERCENT
    ensures SafeBlocks(s) && BlocksDecoded(s) == PercentDecoded(s)
  {
    var chunk := LoadU(s);
    assert chunk == s;
    forall i | 0 <= i < 16 && chunk[i] == PERCENT ensures EscapeAt(chunk, i) {
    }
    assert WellFormedBlocks(s[16..]);
    WellFormedInput(s);
    assert FullBlocks(s) == s;
  }

  /** A block of two escapes, each followed by a byte other than `%`, then
      eight bytes without `%`: the AVX decoder is safe on it and appends
      what the scalar percent-decoder yields. */
  lemma AvxTwoEscapes(s: seq<byte>)
    requires |s| == 16 && EscapeAt(s, 0) && s[3] != PERCENT && EscapeAt(s, 4) && s[7] != PERCENT
    requires PERCENT !in s[8..]
    ensures SafeBlocks(s)
    ensures BlocksDecoded(s) == [Unhex(s[1], s[2]), s[3], Unhex(s[5], s[6]), s[7]] + s[8..]
  {
    assert !IsHexDigit(PERCENT);
    WellFormedOne(s);
    TwoEscapes(s);
  }

  /** The AVX decoder appends `AaBb` and the remaining eight bytes for a
      block `%41a%42b` followed by eight bytes without `%` (`12345678` in
      the unit case). */
  lemma AvxAaBb(s: seq<byte>)
    requires |s| == 16 && PERCENT !in s[8..]
    requires s[0] == PERCENT && s[1] == 0x34 && s[2] == 0x31 && s[3] == 0x61
    requires s[4] == PERCENT && s[5] == 0x34 && s[6] == 0x32 && s[7] == 0x62
    ensures SafeBlocks(s) && BlocksDecoded(s) == [0x41, 0x61, 0x42, 0x62] + s[8..]
  {
    AvxTwoEscapes(s);
  }

  /** `%4Ba%4Cb` or `%4ba%4cb`, then eight bytes without `%`: the AVX
      decoder appends `KaLb` and the eight bytes, whatever the case of the
      digits. */
  lemma AvxKaLb(s: seq<byte>)
    requires |s| == 16 && PERCENT !in s[8..]
    requires s[0] == PERCENT && s[1] == 0x34 && (s[2] == 0x42 || s[2] == 0x62) && s[3] == 0x61
    requires s[4] == PERCENT && s[5] == 0x34 && (s[6] == 0x43 || s[6] == 0x63) && s[7] == 0x62
    ensures SafeBlocks(s) && BlocksDecoded(s) == [0x4B, 0x61, 0x4C, 0x62] + s[8..]
  {
    assert EscapeAt(s, 0) && EscapeAt(s, 4);
    assert Unhex(s[1], s[2]) == 0x4B && Unhex(s[5], s[6]) == 0x4C;
    AvxTwoEscapes(s);
  }

  /** `%%` in the first two lanes: the second `%` moves `out_i` below zero,
      so the AVX decoder panics where the scalar decoder copies a `%`. */
  lemma AvxDoublePercent(s: seq<byte>)
    requires |s| >= 16 && s[0] == PERCENT && s[1] == PERCENT
    ensures !SafeBlocks(s)
  {
    var chunk := LoadU(s);
    SafeBlockIff(chunk);
    assert CountPct(chunk, 1) == 1;
    assert !RoomFrom(chunk, 0);
  }
}
