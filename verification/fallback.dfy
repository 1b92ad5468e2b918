/** The scalar decoder: `+` becomes a space, then `%` followed by two hex
    digits becomes the byte they spell and every other `%` passes through.
    Its pure specification (`Decoded`) is the oracle for the block decoders. */
module Fallback {
  import opened Bytes

  // ---------------------------------------------------------------------------
  // Specification

  /** Every `+` replaced by a space, every other byte kept. */
  function ReplacedPlus(s: seq<byte>): seq<byte> {
    seq(|s|, i requires 0 <= i < |s| => if s[i] == PLUS then SPACE else s[i])
  }

  /** A complete escape starts at `i`: `%` followed by two hex digits. */
  predicate EscapeAt(s: seq<byte>, i: int) {
    0 <= i && i + 2 < |s| && s[i] == PERCENT && IsHexDigit(s[i + 1]) && IsHexDigit(s[i + 2])
  }

  /** Lenient percent-decoding: what iterating `PercentDecode` yields. */
  function PercentDecoded(s: seq<byte>): (r: seq<byte>)
    ensures |r| <= |s| <= 3 * |r|
  {
    if s == [] then []
    else if EscapeAt(s, 0) then [Unhex(s[1], s[2])] + PercentDecoded(s[3..])
    else [s[0]] + PercentDecoded(s[1..])
  }

  /** What `decode` produces for `src`. */
  function Decoded(s: seq<byte>): (r: seq<byte>)
    ensures |r| <= |s|
  {
    PercentDecoded(ReplacedPlus(s))
  }

  // ---------------------------------------------------------------------------
  // Lemmas about the specification

  lemma EscapeAtShift(s: seq<byte>, k: nat, i: int)
    requires k <= |s| && 0 <= i
    ensures EscapeAt(s[k..], i) == EscapeAt(s, i + k)
  {
  }

  /** With no complete escape anywhere, decoding changes nothing. */
  lemma {:induction false} NoEscapeIdentity(s: seq<byte>)
    requires forall i :: !EscapeAt(s, i)
    ensures PercentDecoded(s) == s
  {
    if s != [] {
      forall i | 0 <= i ensures !EscapeAt(s[1..], i) {
        EscapeAtShift(s, 1, i);
      }
      NoEscapeIdentity(s[1..]);
    }
  }

  /** How many input bytes the next decoding step consumes. */
  function StepWidth(s: seq<byte>): nat
    requires s != []
  {
    if EscapeAt(s, 0) then 3 else 1
  }

  /** The byte the next decoding step yields. */
  function StepByte(s: seq<byte>): byte
    requires s != []
  {
    if EscapeAt(s, 0) then Unhex(s[1], s[2]) else s[0]
  }

  /** Decoding a non-empty input is its first step followed by decoding
      what that step leaves. */
  lemma DecodeStep(s: seq<byte>)
    requires s != []
    ensures PercentDecoded(s) == [StepByte(s)] + PercentDecoded(s[StepWidth(s)..])
  {
  }

  lemma SliceOfSlice(s: seq<byte>, k: nat, n: nat)
    requires k <= n <= |s|
    ensures s[k..][..n - k] == s[..n][k..] && s[k..][n - k..] == s[n..]
  {
  }

  lemma AppendAssoc(a: seq<byte>, b: seq<byte>, c: seq<byte>)
    ensures (a + b) + c == a + (b + c)
  {
  }

  lemma ConsAppend(x: byte, a: seq<byte>, b: seq<byte>, p: seq<byte>, q: seq<byte>)
    requires p == [x] + (a + b) && q == [x] + a
    ensures p == q + b
  {
  }

  /** Bytes before the first complete escape are copied unchanged. */
  lemma {:induction false} LiteralPrefix(s: seq<byte>, q: nat)
    requires q <= |s|
    requires forall i :: 0 <= i < q ==> !EscapeAt(s, i)
    ensures PercentDecoded(s) == s[..q] + PercentDecoded(s[q..])
  {
    if q > 0 {
      forall i | 0 <= i < q - 1 ensures !EscapeAt(s[1..], i) {
        EscapeAtShift(s, 1, i);
      }
      LiteralPrefix(s[1..], q - 1);
      DecodeStep(s);
      SliceOfSlice(s, 1, q);
      assert s[..q] == [s[0]] + s[..q][1..];
      ConsAppend(s[0], s[1..][..q - 1], PercentDecoded(s[q..]), PercentDecoded(s), s[..q]);
    } else {
      assert s[..0] == [] && s[0..] == s;
    }
  }

  /** Where the first complete escape starts at `q`, decoding is the bytes
      before it, the escaped byte, then the decoding after it. */
  lemma FirstEscape(s: seq<byte>, q: nat)
    requires EscapeAt(s, q)
    requires forall i :: 0 <= i < q ==> !EscapeAt(s, i)
    ensures PercentDecoded(s) == (s[..q] + [Unhex(s[q + 1], s[q + 2])]) + PercentDecoded(s[q + 3..])
  {
    LiteralPrefix(s, q);
    var t := s[q..];
    assert t[0] == PERCENT && t[1] == s[q + 1] && t[2] == s[q + 2];
    assert EscapeAt(t, 0);
    DecodeStep(t);
    assert t[3..] == s[q + 3..];
    AppendAssoc(s[..q], [Unhex(s[q + 1], s[q + 2])], PercentDecoded(s[q + 3..]));
  }

  /** No `%` after position `from` and no escape before it: no escape at all. */
  lemma NoPercentNoEscape(s: seq<byte>, from: nat)
    requires from <= |s|
    requires forall i :: 0 <= i < from ==> !EscapeAt(s, i)
    requires PERCENT !in s[from..]
    ensures forall i :: !EscapeAt(s, i)
  {
    forall i | from <= i < |s| ensures !EscapeAt(s, i) {
      assert s[from..][i - from] == s[i];
    }
  }

  /** No `%` in `s[from..q]` and no escape before `from`: no escape before `q`. */
  lemma NoPercentBefore(s: seq<byte>, from: nat, q: nat)
    requires from <= q <= |s|
    requires forall i :: 0 <= i < from ==> !EscapeAt(s, i)
    requires PERCENT !in s[from..][..q - from]
    ensures forall i :: 0 <= i < q ==> !EscapeAt(s, i)
  {
    forall i | from <= i < q ensures !EscapeAt(s, i) {
      assert s[from..][..q - from][i - from] == s[i];
    }
  }

  /** One step of `SplitAt`: the first decoding step of `s` is also the
      first step of `s[..n]`. */
  lemma SplitStep(s: seq<byte>, n: nat)
    requires 0 < n <= |s| && StepWidth(s) <= n
    requires var k := StepWidth(s);
             PercentDecoded(s[k..]) == PercentDecoded(s[k..][..n - k]) + PercentDecoded(s[k..][n - k..])
    ensures PercentDecoded(s) == PercentDecoded(s[..n]) + PercentDecoded(s[n..])
  {
    var k := StepWidth(s);
    assert EscapeAt(s[..n], 0) == EscapeAt(s, 0);
    assert StepWidth(s[..n]) == k && StepByte(s[..n]) == StepByte(s);
    DecodeStep(s);
    DecodeStep(s[..n]);
    SliceOfSlice(s, k, n);
    ConsAppend(StepByte(s), PercentDecoded(s[k..][..n - k]), PercentDecoded(s[n..]),
               PercentDecoded(s), PercentDecoded(s[..n]));
  }

  /** Decoding splits at `n` when no escape straddles position `n`. */
  lemma {:induction false} SplitAt(s: seq<byte>, n: nat)
    requires n <= |s|
    requires !EscapeAt(s, n - 1) && !EscapeAt(s, n - 2)
    ensures PercentDecoded(s) == PercentDecoded(s[..n]) + PercentDecoded(s[n..])
  {
    if n == 0 {
      assert s[..0] == [] && s[0..] == s;
    } else {
      var k := StepWidth(s);
      if n - k - 1 >= 0 { EscapeAtShift(s, k, n - k - 1); }
      if n - k - 2 >= 0 { EscapeAtShift(s, k, n - k - 2); }
      SplitAt(s[k..], n - k);
      SplitStep(s, n);
    }
  }

  /** `+` replacement works byte by byte, so it distributes over `+`. */
  lemma ReplacedPlusAppend(a: seq<byte>, b: seq<byte>)
    ensures ReplacedPlus(a + b) == ReplacedPlus(a) + ReplacedPlus(b)
  {
    assert forall i :: 0 <= i < |a + b| ==> (a + b)[i] == if i < |a| then a[i] else b[i - |a|];
  }

  /** No `+` survives replacement, and an input without `+` is left as it is. */
  lemma ReplacedPlusClean(s: seq<byte>)
    ensures PLUS !in ReplacedPlus(s)
    ensures PLUS !in s ==> ReplacedPlus(s) == s
  {
    var r := ReplacedPlus(s);
    assert forall i :: 0 <= i < |r| ==> r[i] != PLUS;
  }

  /** The decoded output never exceeds the input, and holds at least a
      third of it (the bounds `size_hint` reports). */
  lemma DecodedLengthBounds(s: seq<byte>)
    ensures |s| / 3 <= |Decoded(s)| <= |s|
  {
  }

  // ---------------------------------------------------------------------------
  // Implementation

  /** A forward cursor over a byte slice (`slice::Iter<u8>`); `rest` is
      what it has not yet yielded. */
  class SliceIter {
    var rest: seq<byte>

    constructor (s: seq<byte>)
      ensures rest == s
    {
      rest := s;
    }

    function Len(): nat
      reads this
    {
      |rest|
    }

    method Clone() returns (c: SliceIter)
      ensures fresh(c) && c.rest == rest
    {
      c := new SliceIter(rest);
    }

    method Next() returns (b: Option<byte>)
      modifies this
      ensures old(rest) == [] ==> b == None && rest == []
      ensures old(rest) != [] ==> b == Some(old(rest)[0]) && rest == old(rest)[1..]
    {
      if rest == [] {
        b := None;
      } else {
        b := Some(rest[0]);
        rest := rest[1..];
      }
    }

    /** `any(|&b| b == b'%')`: consumes bytes up to and including the first
        `%`, or everything when there is none. */
    method AnyPercent() returns (found: bool)
      modifies this
      ensures found <==> PERCENT in old(rest)
      ensures !found ==> rest == []
      ensures found ==> |rest| < |old(rest)|
      ensures found ==> var k := |old(rest)| - |rest| - 1;
                        old(rest)[k] == PERCENT && PERCENT !in old(rest)[..k] && rest == old(rest)[k + 1..]
    {
      ghost var start := rest;
      while true
        invariant |rest| <= |start| && rest == start[|start| - |rest|..]
        invariant PERCENT !in start[..|start| - |rest|]
        decreases |rest|
      {
        ghost var before := rest;
        var b := Next();
        match b {
          case None =>
            assert start[..|start|] == start;
            return false;
          case Some(x) =>
            assert start[..|start| - |rest|] == start[..|start| - |before|] + [x];
            if x == PERCENT {
              return true;
            }
        }
      }
    }
  }

  /** `after_percent_sign`: if the next two bytes are hex digits, consume
      them and return the byte they spell; otherwise leave the cursor. */
  method AfterPercentSign(iter: SliceIter) returns (r: Option<byte>)
    modifies iter
    ensures r.Some? <==> |old(iter.rest)| >= 2 && IsHexDigit(old(iter.rest)[0]) && IsHexDigit(old(iter.rest)[1])
    ensures r.Some? ==> r.value == Unhex(old(iter.rest)[0], old(iter.rest)[1]) && iter.rest == old(iter.rest)[2..]
    ensures r.None? ==> iter.rest == old(iter.rest)
  {
    var cloned := iter.Clone();
    var h := cloned.Next();
    if h.None? || !IsHexDigit(h.value) {
      return None;
    }
    var l := cloned.Next();
    if l.None? || !IsHexDigit(l.value) {
      return None;
    }
    iter.rest := cloned.rest;
    r := Some(Unhex(h.value, l.value));
  }

  /** The percent-decoding iterator over `bytes`. */
  class PercentDecode {
    var bytes: SliceIter

    /** `percent_decode(input)`. */
    constructor (input: seq<byte>)
      ensures fresh(bytes) && bytes.rest == input
    {
      bytes := new SliceIter(input);
    }

    /** `PercentDecode { bytes: iter }`. */
    constructor FromIter(iter: SliceIter)
      ensures bytes == iter
    {
      bytes := iter;
    }

    /** One step: a complete escape yields its byte and consumes three input
        bytes; any other byte, including a `%` that does not start a
        complete escape, is yielded as it is and consumes one. */
    method Next() returns (r: Option<byte>)
      modifies bytes
      ensures old(bytes.rest) == [] <==> r.None?
      ensures r.None? ==> bytes.rest == []
      ensures EscapeAt(old(bytes.rest), 0) ==>
                r == Some(Unhex(old(bytes.rest)[1], old(bytes.rest)[2])) && bytes.rest == old(bytes.rest)[3..]
      ensures old(bytes.rest) != [] && !EscapeAt(old(bytes.rest), 0) ==>
                r == Some(old(bytes.rest)[0]) && bytes.rest == old(bytes.rest)[1..]
      ensures PercentDecoded(old(bytes.rest)) == (if r.Some? then [r.value] else []) + PercentDecoded(bytes.rest)
    {
      var b := bytes.Next();
      match b {
        case None =>
          r := None;
        case Some(byte) =>
          if byte == PERCENT {
            var d := AfterPercentSign(bytes);
            r := Some(if d.Some? then d.value else byte);
          } else {
            r := Some(byte);
          }
      }
    }

    /** `size_hint`: a lower and an upper bound on the bytes still to come. */
    function SizeHint(): (h: (nat, Option<nat>))
      reads this, bytes
      ensures h.0 <= |PercentDecoded(bytes.rest)|
      ensures h.1.Some? && |PercentDecoded(bytes.rest)| <= h.1.value
    {
      (|bytes.rest| / 3, Some(|bytes.rest|))
    }

    /** `if_any`: `None` when decoding would change nothing, otherwise the
        whole decoded remainder, built from the unchanged prefix, the first
        decoded byte and the decoded rest. */
    method IfAny() returns (r: Option<seq<byte>>)
      ensures r.None? <==> forall i :: !EscapeAt(bytes.rest, i)
      ensures r.None? ==> PercentDecoded(bytes.rest) == bytes.rest
      ensures r.Some? ==> r.value == PercentDecoded(bytes.rest)
    {
      ghost var initial := bytes.rest;
      var bytesIter := bytes.Clone();
      while true
        invariant fresh(bytesIter) && bytes.rest == initial
        invariant |bytesIter.rest| <= |initial| && bytesIter.rest == initial[|initial| - |bytesIter.rest|..]
        invariant forall i :: 0 <= i < |initial| - |bytesIter.rest| ==> !EscapeAt(initial, i)
        decreases |bytesIter.rest|
      {
        ghost var from := |initial| - |bytesIter.rest|;
        var any := bytesIter.AnyPercent();
        if !any {
          NoPercentNoEscape(initial, from);
          NoEscapeIdentity(initial);
          return None;
        }
        ghost var q := |initial| - |bytesIter.rest| - 1;
        NoPercentBefore(initial, from, q);
        assert initial[q..][1..] == bytesIter.rest;
        var decoded := AfterPercentSign(bytesIter);
        if decoded.Some? {
          assert EscapeAt(initial, q);
          FirstEscape(initial, q);
          var initialBytes := bytes.rest;
          var unchangedBytesLen := |initialBytes| - bytesIter.Len() - 3;
          assert unchangedBytesLen == q;
          var out := initialBytes[..unchangedBytesLen] + [decoded.value];
          assert bytesIter.rest == initialBytes[q + 3..];
          var tail := new PercentDecode.FromIter(bytesIter);
          out := Extend(out, tail);
          return Some(out);
        }
        assert !EscapeAt(initial, q);
      }
    }

    /** `Cow::from(iter)`: the decoded bytes, borrowed from the input when
        decoding changes nothing. */
    method ToBytes() returns (r: seq<byte>)
      ensures r == PercentDecoded(bytes.rest)
    {
      var any := IfAny();
      match any {
        case Some(v) => r := v;
        case None => r := bytes.rest;
      }
    }
  }

  /** `Vec::extend` with a `PercentDecode`: every byte the iterator yields
      is appended to `out`. */
  method Extend(out: seq<byte>, iter: PercentDecode) returns (r: seq<byte>)
    modifies iter.bytes
    ensures r == out + PercentDecoded(old(iter.bytes.rest))
    ensures iter.bytes.rest == []
  {
    r := out;
    while true
      invariant r + PercentDecoded(iter.bytes.rest) == out + PercentDecoded(old(iter.bytes.rest))
      decreases |iter.bytes.rest|
    {
      var b := iter.Next();
      if b.None? {
        return;
      }
      r := r + [b.value];
    }
  }

  /** `replace_plus`: a copy with every `+` turned into a space, or the input
      itself when it holds no `+`. */
  method ReplacePlus(input: seq<byte>) returns (r: seq<byte>)
    ensures r == ReplacedPlus(input)
    ensures PLUS !in input ==> r == input
  {
    var firstPosition := 0;
    while firstPosition < |input| && input[firstPosition] != PLUS
      invariant firstPosition <= |input|
      invariant PLUS !in input[..firstPosition]
    {
      firstPosition := firstPosition + 1;
    }
    if firstPosition == |input| {
      assert input[..firstPosition] == input;
      return input;
    }
    var replaced := new byte[|input|](i requires 0 <= i < |input| => input[i]);
    replaced[firstPosition] := SPACE;
    var i := firstPosition + 1;
    while i < |input|
      invariant firstPosition < i <= |input|
      invariant forall k :: 0 <= k < i ==> replaced[k] == (if input[k] == PLUS then SPACE else input[k])
      invariant forall k :: i <= k < |input| ==> replaced[k] == input[k]
    {
      if replaced[i] == PLUS {
        replaced[i] := SPACE;
      }
      i := i + 1;
    }
    r := replaced[..];
  }

  /** `decode`: `dst` is overwritten with the decoded input. */
  method Decode(src: seq<byte>, dst: ByteVec)
    modifies dst
    ensures dst.elems == Decoded(src)
  {
    var s := ReplacePlus(src);
    var decoder := new PercentDecode(s);
    var any := decoder.IfAny();
    match any {
      case Some(v) => dst.elems := v;
      case None => dst.elems := s;
    }
  }

  /** `decode_extend`: the decoded input is appended to `dst`. */
  method DecodeExtend(src: seq<byte>, dst: ByteVec)
    modifies dst
    ensures dst.elems == old(dst.elems) + Decoded(src)
  {
    var s := ReplacePlus(src);
    var decoder := new PercentDecode(s);
    var any := decoder.IfAny();
    match any {
      case Some(v) => dst.elems := dst.elems + v;
      case None => dst.elems := dst.elems + s;
    }
  }
}
