/** UTF-8 and UTF-16 as the JSON library encodes, decodes, validates and transcodes them.

    Code units are mathematical integers in range.  A shift by 6 is a multiplication or division
    by 64, a mask with 0x3F is a remainder modulo 64, and an `or` of disjoint bit fields is a sum;
    only the range classes of the table keep their bit patterns, because the masks test them. */
module Encodings {
  type Byte = b: int | 0 <= b < 0x100
  type Word = w: int | 0 <= w < 0x1_0000

  const UINT32_LIMIT := 0x1_0000_0000
  const SIZE_LIMIT := 0x1_0000_0000_0000_0000

  lemma ConcatAssoc<T>(a: seq<T>, b: seq<T>, c: seq<T>)
    ensures a + b + c == a + (b + c)
  {
  }

  ghost predicate IsScalar(cp: int) {
    0 <= cp < 0xD800 || 0xDFFF < cp <= 0x10FFFF
  }

  // ------------------------------------------------------------------ streams

  /** A cursor over a string.  `percent` selects which of the two `Take` implementations the stream
      has: the plain string stream, or the stream that decodes %XY triplets of a URI fragment.
      Reading past the end of the string sees the terminating zero. */
  class InputStream {
    const src: seq<Byte>
    const percent: bool
    var pos: nat
    var valid: bool

    constructor (src: seq<Byte>, start: nat, percent: bool)
      ensures this.src == src && this.percent == percent && pos == start && valid
    {
      this.src, this.percent, this.pos, this.valid := src, percent, start, true;
    }

    method Take() returns (c: Byte)
      modifies this
      ensures !percent ==> c == At(src, old(pos)) && pos == old(pos) + 1 && valid == old(valid)
      ensures percent && !old(valid) ==> !valid
      ensures percent && old(valid) ==> (valid <==> TripletAt(src, old(pos)).Some?)
      ensures percent && TripletAt(src, old(pos)).Some? ==>
                c == TripletAt(src, old(pos)).value && pos == old(pos) + 3
      ensures percent && TripletAt(src, old(pos)).None? ==> c == 0
    {
      if !percent {
        c := At(src, pos);
        pos := pos + 1;
        return;
      }
      if At(src, pos) != PERCENT || pos + 3 > |src| {
        valid := false;
        return 0;
      }
      ghost var start := pos;
      pos := pos + 1;
      c := 0;
      var j := 0;
      while j < 2
        invariant 0 <= j <= 2 && pos == start + 1 + j && valid == old(valid)
        invariant j >= 1 ==> HexValue(src[start + 1]).Some?
        invariant j == 2 ==> HexValue(src[start + 2]).Some?
        invariant c == if j == 0 then 0 else if j == 1 then HexValue(src[start + 1]).value
                       else HexValue(src[start + 1]).value * 16 + HexValue(src[start + 2]).value
      {
        c := (c * 16) % 0x100;
        var h := src[pos];
        if '0' as int <= h <= '9' as int {
          c := c + h - '0' as int;
        } else if 'A' as int <= h <= 'F' as int {
          c := c + h - 'A' as int + 10;
        } else if 'a' as int <= h <= 'f' as int {
          c := c + h - 'a' as int + 10;
        } else {
          valid := false;
          return 0;
        }
        pos := pos + 1;
        j := j + 1;
      }
    }
  }

  datatype Option<+T> = None | Some(value: T)

  const PERCENT: Byte := '%' as int

  function At(s: seq<Byte>, i: nat): Byte {
    if i < |s| then s[i] else 0
  }

  /** The value of a hexadecimal digit of either case (section 2.1 of RFC 3986). */
  function HexValue(h: Byte): Option<nat> {
    if '0' as int <= h <= '9' as int then Some(h - '0' as int)
    else if 'A' as int <= h <= 'F' as int then Some(h - 'A' as int + 10)
    else if 'a' as int <= h <= 'f' as int then Some(h - 'a' as int + 10)
    else None
  }

  /** The byte that a %XY triplet at position i stands for, if there is a whole one. */
  function TripletAt(s: seq<Byte>, i: nat): (r: Option<Byte>)
    ensures r.Some? ==> i + 3 <= |s| && s[i] == PERCENT
  {
    if i + 3 <= |s| && s[i] == PERCENT && HexValue(s[i + 1]).Some? && HexValue(s[i + 2]).Some? then
      Some(HexValue(s[i + 1]).value * 16 + HexValue(s[i + 2]).value)
    else
      None
  }

  // ------------------------------------------------------------------ UTF-8

  /** The bytes of one code point (section 3 of RFC 3629). */
  function Utf8(cp: nat): (bs: seq<Byte>)
    requires cp <= 0x10FFFF
  {
    if cp <= 0x7F then [cp]
    else if cp <= 0x7FF then [0xC0 + cp / 64, 0x80 + cp % 64]
    else if cp <= 0xFFFF then [0xE0 + cp / 4096, 0x80 + cp / 64 % 64, 0x80 + cp % 64]
    else [0xF0 + cp / 0x4_0000, 0x80 + cp / 4096 % 64, 0x80 + cp / 64 % 64, 0x80 + cp % 64]
  }

  /** The class of a byte, as the 256-entry table gives it. */
  function GetRange(c: Byte): bv8 {
    if c < 0x80 then 0
    else if c < 0x90 then 0x10
    else if c < 0xA0 then 0x40
    else if c < 0xC0 then 0x20
    else if c < 0xC2 then 8
    else if c < 0xE0 then 2
    else if c == 0xE0 then 10
    else if c < 0xED then 3
    else if c == 0xED then 4
    else if c < 0xF0 then 3
    else if c == 0xF0 then 11
    else if c < 0xF4 then 6
    else if c == 0xF4 then 5
    else 8
  }

  /** Which masks the bytes after a lead byte are tested with; none for a byte that leads nothing. */
  function TailMasks(lead: Byte): (masks: seq<bv8>)
    ensures |masks| <= 3
  {
    var kind := GetRange(lead);
    if kind == 2 then [0x70]
    else if kind == 3 then [0x70, 0x70]
    else if kind == 4 then [0x50, 0x70]
    else if kind == 5 then [0x10, 0x70, 0x70]
    else if kind == 6 then [0x70, 0x70, 0x70]
    else if kind == 10 then [0x20, 0x70]
    else if kind == 11 then [0x60, 0x70, 0x70]
    else []
  }

  /** The bits of the lead byte that belong to the code point: 0xFF >> class, as a mask. */
  function LeadBits(kind: bv8, c: Byte): nat {
    if kind == 2 then c % 64 else if kind == 3 then c % 32 else if kind == 4 then c % 16
    else if kind == 5 then c % 8 else if kind == 6 then c % 4 else 0
  }

  function PushBits(codepoint: nat, c: Byte): nat {
    codepoint * 64 % UINT32_LIMIT + c % 64
  }

  predicate Matches(c: Byte, mask: bv8) {
    GetRange(c) & mask != 0
  }

  /** The verdict on the bytes that one call takes: as many as the lead byte asks for. */
  predicate ValidUnit(bs: seq<Byte>) {
    && |bs| > 0
    && |bs| == 1 + |TailMasks(bs[0])|
    && (bs[0] < 0x80 || |bs| > 1)
    && forall k | 0 <= k < |bs| - 1 :: Matches(bs[k + 1], TailMasks(bs[0])[k])
  }

  function CodePoint(bs: seq<Byte>): nat
    requires |bs| > 0
    requires |bs| == 1 + |TailMasks(bs[0])|
  {
    if bs[0] < 0x80 then bs[0]
    else
      var c0 := LeadBits(GetRange(bs[0]), bs[0]);
      var c1 := if |bs| > 1 then PushBits(c0, bs[1]) else c0;
      var c2 := if |bs| > 2 then PushBits(c1, bs[2]) else c1;
      if |bs| > 3 then PushBits(c2, bs[3]) else c2
  }

  /** Soundness and completeness of the table: it accepts exactly the encodings of scalar values,
      so no overlong form, no surrogate and nothing above 0x10FFFF (section 4 of RFC 3629). */
  lemma ValidUnitIsEncoding(bs: seq<Byte>)
    ensures ValidUnit(bs) <==> exists cp: nat :: IsScalar(cp) && bs == Utf8(cp)
    ensures ValidUnit(bs) ==> IsScalar(CodePoint(bs)) && bs == Utf8(CodePoint(bs))
  {
    if ValidUnit(bs) {
      DecodedIsEncoded(bs);
    }
    forall cp: nat | IsScalar(cp) && bs == Utf8(cp)
      ensures ValidUnit(bs)
    {
      EncodedIsDecoded(cp);
    }
  }

  /** What each mask lets through. */
  lemma MaskRanges(c: Byte)
    ensures Matches(c, 0x70) <==> 0x80 <= c < 0xC0
    ensures Matches(c, 0x50) <==> 0x80 <= c < 0xA0
    ensures Matches(c, 0x10) <==> 0x80 <= c < 0x90
    ensures Matches(c, 0x20) <==> 0xA0 <= c < 0xC0
    ensures Matches(c, 0x60) <==> 0x90 <= c < 0xC0
  {
  }

  /** The same verdict in plain ranges (the table of section 4 of RFC 3629). */
  predicate InRanges(bs: seq<Byte>) {
    || (|bs| == 1 && bs[0] < 0x80)
    || (|bs| == 2 && 0xC2 <= bs[0] < 0xE0 && 0x80 <= bs[1] < 0xC0)
    || (|bs| == 3 && 0xE0 <= bs[0] < 0xF0 && 0x80 <= bs[1] < 0xC0 && 0x80 <= bs[2] < 0xC0
        && (bs[0] == 0xE0 ==> 0xA0 <= bs[1]) && (bs[0] == 0xED ==> bs[1] < 0xA0))
    || (|bs| == 4 && 0xF0 <= bs[0] < 0xF5 && 0x80 <= bs[1] < 0xC0 && 0x80 <= bs[2] < 0xC0 && 0x80 <= bs[3] < 0xC0
        && (bs[0] == 0xF0 ==> 0x90 <= bs[1]) && (bs[0] == 0xF4 ==> bs[1] < 0x90))
  }

  /** How many bytes are taken behind a lead byte, valid or not. */
  lemma TailCount(c: Byte)
    ensures |TailMasks(c)|
            == if 0xC2 <= c < 0xE0 then 1 else if 0xE0 <= c < 0xF0 then 2 else if 0xF0 <= c < 0xF5 then 3 else 0
  {
  }

  lemma VerdictUnfolded(bs: seq<Byte>)
    requires |bs| > 0 && |bs| == 1 + |TailMasks(bs[0])|
    ensures ValidUnit(bs) <==>
              && (bs[0] < 0x80 || |bs| > 1)
              && (|bs| > 1 ==> Matches(bs[1], TailMasks(bs[0])[0]))
              && (|bs| > 2 ==> Matches(bs[2], TailMasks(bs[0])[1]))
              && (|bs| > 3 ==> Matches(bs[3], TailMasks(bs[0])[2]))
  {
  }

  lemma TableMatchesRanges(bs: seq<Byte>)
    ensures ValidUnit(bs) <==> InRanges(bs)
  {
    if |bs| > 0 && |bs| == 1 + |TailMasks(bs[0])| {
      var masks := TailMasks(bs[0]);
      if |bs| >= 2 { MaskRanges(bs[1]); }
      if |bs| >= 3 { MaskRanges(bs[2]); }
      if |bs| >= 4 { MaskRanges(bs[3]); }
      VerdictUnfolded(bs);
    }
  }

  lemma DecodedIsEncoded(bs: seq<Byte>)
    requires ValidUnit(bs)
    ensures IsScalar(CodePoint(bs)) && bs == Utf8(CodePoint(bs))
  {
    TableMatchesRanges(bs);
    RangesDecode(bs);
  }

  lemma RangesDecode(bs: seq<Byte>)
    requires InRanges(bs)
    ensures |bs| == 1 + |TailMasks(bs[0])|
    ensures IsScalar(CodePoint(bs)) && bs == Utf8(CodePoint(bs))
  {
    if |bs| == 2 {
      RangesDecode2(bs);
    } else if |bs| == 3 {
      RangesDecode3(bs);
    } else if |bs| == 4 {
      RangesDecode4(bs);
    }
  }

  lemma RangesDecode2(bs: seq<Byte>)
    requires InRanges(bs) && |bs| == 2
    ensures |bs| == 1 + |TailMasks(bs[0])|
    ensures IsScalar(CodePoint(bs)) && bs == Utf8(CodePoint(bs))
  {
    var b0: int, b1: int := bs[0], bs[1];
    var c0 := b0 - 0xC0;
    assert LeadBits(GetRange(bs[0]), bs[0]) == c0;
    PushTail(c0, bs[1]);
    assert CodePoint(bs) == c0 * 64 + (b1 - 0x80);
  }

  lemma RangesDecode3(bs: seq<Byte>)
    requires InRanges(bs) && |bs| == 3
    ensures |bs| == 1 + |TailMasks(bs[0])|
    ensures IsScalar(CodePoint(bs)) && bs == Utf8(CodePoint(bs))
  {
    var b0: int, b1: int, b2: int := bs[0], bs[1], bs[2];
    var c0 := b0 - 0xE0;
    assert GetRange(bs[0]) in {3, 4, 10} && LeadBits(GetRange(bs[0]), bs[0]) == c0;
    var c1 := c0 * 64 + b1 - 0x80;
    var c2 := c1 * 64 + b2 - 0x80;
    assert CodePoint(bs) == c2 by {
      PushTail(c0, bs[1]);
      PushTail(c1, bs[2]);
    }
    assert 0x7FF < c2 <= 0xFFFF && IsScalar(c2);
    TripleEncoded(c2, c0, b1 - 0x80, b2 - 0x80);
  }

  lemma TripleEncoded(cp: nat, x: nat, y: nat, z: nat)
    requires y < 64 && z < 64 && 0x7FF < cp <= 0xFFFF
    requires cp == (x * 64 + y) * 64 + z
    ensures Utf8(cp) == [0xE0 + x, 0x80 + y, 0x80 + z]
  {
    assert x < 64;
    Digits64(cp, 0, x, y, z);
  }

  lemma PushTail(codepoint: nat, c: Byte)
    requires codepoint < 0x400_0000 && 0x80 <= c < 0xC0
    ensures PushBits(codepoint, c) == codepoint * 64 + c - 0x80
  {
  }

  lemma RangesDecode4(bs: seq<Byte>)
    requires InRanges(bs) && |bs| == 4
    ensures |bs| == 1 + |TailMasks(bs[0])|
    ensures IsScalar(CodePoint(bs)) && bs == Utf8(CodePoint(bs))
  {
    var b0: int, b1: int, b2: int, b3: int := bs[0], bs[1], bs[2], bs[3];
    var c0 := b0 - 0xF0;
    assert GetRange(bs[0]) in {5, 6, 11} && LeadBits(GetRange(bs[0]), bs[0]) == c0;
    var c1 := c0 * 64 + b1 - 0x80;
    var c2 := c1 * 64 + b2 - 0x80;
    var c3 := c2 * 64 + b3 - 0x80;
    assert CodePoint(bs) == c3 by {
      PushTail(c0, bs[1]);
      PushTail(c1, bs[2]);
      PushTail(c2, bs[3]);
    }
    assert 0xFFFF < c3 <= 0x10FFFF;
    QuadEncoded(c3, c0, b1 - 0x80, b2 - 0x80, b3 - 0x80);
  }

  lemma QuadEncoded(cp: nat, x: nat, y: nat, z: nat, w: nat)
    requires y < 64 && z < 64 && w < 64 && 0xFFFF < cp <= 0x10FFFF
    requires cp == ((x * 64 + y) * 64 + z) * 64 + w
    ensures Utf8(cp) == [0xF0 + x, 0x80 + y, 0x80 + z, 0x80 + w]
  {
    Digits64(cp, x, y, z, w);
  }

  lemma EncodedIsDecoded(cp: nat)
    requires IsScalar(cp)
    ensures ValidUnit(Utf8(cp)) && CodePoint(Utf8(cp)) == cp
  {
    var bs := Utf8(cp);
    EncodedInRanges(cp);
    TableMatchesRanges(bs);
    RangesDecode(bs);
    Utf8Injective(cp, CodePoint(bs));
  }

  lemma EncodedInRanges(cp: nat)
    requires IsScalar(cp)
    ensures InRanges(Utf8(cp))
  {
    Utf8Spells(cp);
  }

  /** Four base-64 digits and the number they make determine each other. */
  lemma Digits64(a: nat, x: nat, y: nat, z: nat, w: nat)
    requires y < 64 && z < 64 && w < 64
    ensures a == ((x * 64 + y) * 64 + z) * 64 + w <==>
              x == a / 0x4_0000 && y == a / 4096 % 64 && z == a / 64 % 64 && w == a % 64
  {
    var q1 := a / 64;
    var q2 := q1 / 64;
    var q3 := q2 / 64;
    assert a == 64 * q1 + a % 64 && q1 == 64 * q2 + q1 % 64 && q2 == 64 * q3 + q2 % 64;
    assert a / 4096 == q2 by {
      assert a == 4096 * q2 + (64 * (q1 % 64) + a % 64);
    }
    assert a / 0x4_0000 == q3 by {
      assert a == 0x4_0000 * q3 + (4096 * (q2 % 64) + 64 * (q1 % 64) + a % 64);
    }
  }

  lemma SameDigits(a: nat, b: nat)
    requires a / 0x4_0000 == b / 0x4_0000 && a / 4096 % 64 == b / 4096 % 64
    requires a / 64 % 64 == b / 64 % 64 && a % 64 == b % 64
    ensures a == b
  {
    Digits64(a, a / 0x4_0000, a / 4096 % 64, a / 64 % 64, a % 64);
    Digits64(b, a / 0x4_0000, a / 4096 % 64, a / 64 % 64, a % 64);
  }

  predicate IsTail(c: Byte) {
    0x80 <= c < 0xC0
  }

  /** The bytes and the number they spell (section 3 of RFC 3629): as many as its size asks for, a lead byte of
      that length, and six bits in each byte behind it. */
  lemma Utf8Spells(cp: nat)
    requires cp <= 0x10FFFF
    ensures var u := Utf8(cp);
            && (cp < 0x80 ==> u == [cp])
            && (0x80 <= cp < 0x800 ==>
                  |u| == 2 && 0xC0 <= u[0] < 0xE0 && IsTail(u[1]) && cp == (u[0] as int - 0xC0) * 0x40 + u[1] as int - 0x80)
            && (0x800 <= cp < 0x1_0000 ==>
                  && |u| == 3 && 0xE0 <= u[0] < 0xF0 && IsTail(u[1]) && IsTail(u[2])
                  && cp == (u[0] as int - 0xE0) * 0x1000 + (u[1] as int - 0x80) * 0x40 + u[2] as int - 0x80)
            && (0x1_0000 <= cp ==>
                  && |u| == 4 && 0xF0 <= u[0] < 0xF8 && IsTail(u[1]) && IsTail(u[2]) && IsTail(u[3])
                  && cp == (u[0] as int - 0xF0) * 0x4_0000 + (u[1] as int - 0x80) * 0x1000
                           + (u[2] as int - 0x80) * 0x40 + u[3] as int - 0x80)
  {
    Digits64(cp, cp / 0x4_0000, cp / 4096 % 64, cp / 64 % 64, cp % 64);
  }

  lemma Utf8Injective(a: nat, b: nat)
    requires a <= 0x10FFFF && b <= 0x10FFFF && Utf8(a) == Utf8(b)
    ensures a == b
  {
    var x, y := Utf8(a), Utf8(b);
    assert |x| == |y| && x[0] == y[0] && x[|x| - 1] == y[|x| - 1];
    if |x| == 3 {
      assert x[1] == y[1];
      SameDigits(a, b);
    }
    if |x| == 4 {
      assert x[1] == y[1] && x[2] == y[2];
      SameDigits(a, b);
    }
  }

  /** The bytes s[i..i+n], with the terminating zero wherever the string has ended. */
  function Window(s: seq<Byte>, i: nat, n: nat): (w: seq<Byte>)
    ensures |w| == n && forall k | 0 <= k < n :: w[k] == At(s, i + k)
  {
    seq<Byte>(n, k requires 0 <= k < n => At(s, i + k))
  }

  /** One COPY and TRANS of the decoder: take a byte, shift it in, test its class. */
  method DecodeTail(input: InputStream, codepoint: nat, mask: bv8) returns (cp: nat, ok: bool)
    requires !input.percent
    modifies input
    ensures input.pos == old(input.pos) + 1
    ensures cp == PushBits(codepoint, At(input.src, old(input.pos)))
    ensures ok == Matches(At(input.src, old(input.pos)), mask)
  {
    var c := input.Take();
    cp := codepoint * 64 % UINT32_LIMIT + c % 64;
    ok := GetRange(c) & mask != 0;
  }

  /** Decode takes the bytes of one code point; the verdict is true exactly when those bytes encode
      a scalar value, and then that is the value delivered. */
  method DecodeUtf8(input: InputStream) returns (ok: bool, codepoint: nat)
    requires !input.percent
    modifies input
    ensures input.pos == old(input.pos) + 1 + |TailMasks(At(input.src, old(input.pos)))|
    ensures var taken := Window(input.src, old(input.pos), input.pos - old(input.pos));
            && (ok <==> exists cp: nat :: IsScalar(cp) && taken == Utf8(cp))
            && (ok ==> IsScalar(codepoint) && taken == Utf8(codepoint))
  {
    ghost var start := input.pos;
    var c := input.Take();
    codepoint, ok := DecodeTails(input, c);
    ghost var taken := Window(input.src, start, input.pos - start);
    assert taken[0] == c;
    ValidUnitIsEncoding(taken);
  }

  /** The switch over the class of the first byte, which was taken. */
  method DecodeTails(input: InputStream, c: Byte) returns (codepoint: nat, ok: bool)
    requires !input.percent && input.pos > 0 && c == At(input.src, input.pos - 1)
    modifies input
    ensures input.pos == old(input.pos) + |TailMasks(c)|
    ensures var taken := Window(input.src, old(input.pos) - 1, input.pos - old(input.pos) + 1);
            ok == ValidUnit(taken) && codepoint == CodePoint(taken)
  {
    ghost var start := input.pos - 1;
    var r0, r1, r2 := true, true, true;
    if c < 0x80 {
      codepoint, ok := c, true;
    } else {
      var kind := GetRange(c);
      codepoint, ok := LeadBits(kind, c), true;
      if kind == 2 {
        codepoint, r0 := DecodeTail(input, codepoint, 0x70);
      } else if kind == 3 {
        codepoint, r0 := DecodeTail(input, codepoint, 0x70);
        codepoint, r1 := DecodeTail(input, codepoint, 0x70);
      } else if kind == 4 {
        codepoint, r0 := DecodeTail(input, codepoint, 0x50);
        codepoint, r1 := DecodeTail(input, codepoint, 0x70);
      } else if kind == 5 {
        codepoint, r0 := DecodeTail(input, codepoint, 0x10);
        codepoint, r1 := DecodeTail(input, codepoint, 0x70);
        codepoint, r2 := DecodeTail(input, codepoint, 0x70);
      } else if kind == 6 {
        codepoint, r0 := DecodeTail(input, codepoint, 0x70);
        codepoint, r1 := DecodeTail(input, codepoint, 0x70);
        codepoint, r2 := DecodeTail(input, codepoint, 0x70);
      } else if kind == 10 {
        codepoint, r0 := DecodeTail(input, codepoint, 0x20);
        codepoint, r1 := DecodeTail(input, codepoint, 0x70);
      } else if kind == 11 {
        codepoint, r0 := DecodeTail(input, codepoint, 0x60);
        codepoint, r1 := DecodeTail(input, codepoint, 0x70);
        codepoint, r2 := DecodeTail(input, codepoint, 0x70);
      } else {
        ok := false;
      }
      ok := ok && r0 && r1 && r2;
    }
    ghost var taken := Window(input.src, start, input.pos - start);
    assert taken[0] == c;
    VerdictUnfolded(taken);
  }

  /** What a run of `Take` calls means: a plain stream hands out the bytes of the string, a triplet
      stream the bytes of whole %XY triplets or else it is marked invalid for good. */
  ghost predicate TakenFrom(src: seq<Byte>, percent: bool, pos: nat, valid: bool, bs: seq<Byte>,
                            pos': nat, valid': bool)
  {
    if !percent then
      pos' == pos + |bs| && bs == Window(src, pos, |bs|)
    else
      && (valid' ==> valid && pos' == pos + 3 * |bs|)
      && (valid' ==> forall k | 0 <= k < |bs| :: TripletAt(src, pos + 3 * k) == Some(bs[k]))
      && (|bs| > 0 && TripletAt(src, pos).Some? ==> bs[0] == TripletAt(src, pos).value)
      && (|bs| > 0 && TripletAt(src, pos).None? ==> bs[0] == 0)
      && (valid && !valid' ==> exists k | 0 <= k < |bs| :: TripletAt(src, pos + 3 * k).None?)
  }

  lemma TakenFromAppend(src: seq<Byte>, percent: bool, p0: nat, v0: bool, a: seq<Byte>, p1: nat, v1: bool,
                        b: seq<Byte>, p2: nat, v2: bool)
    requires |a| > 0
    requires TakenFrom(src, percent, p0, v0, a, p1, v1)
    requires TakenFrom(src, percent, p1, v1, b, p2, v2)
    ensures TakenFrom(src, percent, p0, v0, a + b, p2, v2)
  {
    if percent {
      if v2 {
        forall k | 0 <= k < |a + b|
          ensures TripletAt(src, p0 + 3 * k) == Some((a + b)[k])
        {
          if k >= |a| {
            assert p0 + 3 * k == p1 + 3 * (k - |a|);
          }
        }
      } else if v0 && v1 {
        var k :| 0 <= k < |b| && TripletAt(src, p1 + 3 * k).None?;
        assert p1 + 3 * k == p0 + 3 * (k + |a|);
      }
    }
  }

  /** One COPY and TRANS of the validator, after the bytes already copied from `start` on. */
  method ValidateTail(input: InputStream, copied: seq<Byte>, mask: bv8, ghost start: nat, ghost valid: bool)
    returns (out: seq<Byte>, ok: bool)
    requires |copied| > 0
    requires TakenFrom(input.src, input.percent, start, valid, copied, input.pos, input.valid)
    modifies input
    ensures |out| == |copied| + 1 && out[..|copied|] == copied && ok == Matches(out[|copied|], mask)
    ensures TakenFrom(input.src, input.percent, start, valid, out, input.pos, input.valid)
  {
    ghost var p1, v1 := input.pos, input.valid;
    var c := input.Take();
    out := copied + [c];
    ok := GetRange(c) & mask != 0;
    assert TakenFrom(input.src, input.percent, p1, v1, [c], input.pos, input.valid) by {
      assert TripletAt(input.src, p1 + 3 * 0) == TripletAt(input.src, p1);
    }
    TakenFromAppend(input.src, input.percent, start, valid, copied, p1, v1, [c], input.pos, input.valid);
  }

  /** Two tails in a row; no test stops the reading. */
  method ValidateTwo(input: InputStream, c: Byte, m0: bv8, m1: bv8, ghost start: nat, ghost valid: bool)
    returns (out: seq<Byte>, ok: bool)
    requires TakenFrom(input.src, input.percent, start, valid, [c], input.pos, input.valid)
    modifies input
    ensures |out| == 3 && out[0] == c && ok == (Matches(out[1], m0) && Matches(out[2], m1))
    ensures TakenFrom(input.src, input.percent, start, valid, out, input.pos, input.valid)
  {
    var r0, r1;
    out, r0 := ValidateTail(input, [c], m0, start, valid);
    ghost var before := out;
    out, r1 := ValidateTail(input, out, m1, start, valid);
    assert out[..2] == before && before[..1] == [c];
    ok := r0 && r1;
  }

  /** Three tails in a row. */
  method ValidateThree(input: InputStream, c: Byte, m0: bv8, m1: bv8, m2: bv8, ghost start: nat, ghost valid: bool)
    returns (out: seq<Byte>, ok: bool)
    requires TakenFrom(input.src, input.percent, start, valid, [c], input.pos, input.valid)
    modifies input
    ensures |out| == 4 && out[0] == c
    ensures ok == (Matches(out[1], m0) && Matches(out[2], m1) && Matches(out[3], m2))
    ensures TakenFrom(input.src, input.percent, start, valid, out, input.pos, input.valid)
  {
    var r0, r1;
    out, r0 := ValidateTwo(input, c, m0, m1, start, valid);
    ghost var before := out;
    out, r1 := ValidateTail(input, out, m2, start, valid);
    assert out[..3] == before;
    ok := r0 && r1;
  }

  /** Validate copies exactly the bytes it takes, and its verdict is the verdict of Decode on them.
      Over a triplet stream the bytes are the decoded ones, and the stream stays valid exactly when
      each of them came from a whole triplet. */
  method Validate(input: InputStream) returns (ok: bool, copied: seq<Byte>)
    modifies input
    ensures |copied| > 0 && |copied| == 1 + |TailMasks(copied[0])|
    ensures ok == ValidUnit(copied)
    ensures ok <==> exists cp: nat :: IsScalar(cp) && copied == Utf8(cp)
    ensures TakenFrom(input.src, input.percent, old(input.pos), old(input.valid), copied,
                      input.pos, input.valid)
  {
    ghost var start, valid := input.pos, input.valid;
    var c := input.Take();
    assert TripletAt(input.src, start + 3 * 0) == TripletAt(input.src, start);
    copied, ok := ValidateTails(input, c, start, valid);
    ValidUnitIsEncoding(copied);
  }

  /** The switch on the class of the lead byte. */
  method ValidateTails(input: InputStream, c: Byte, ghost start: nat, ghost valid: bool)
    returns (copied: seq<Byte>, ok: bool)
    requires TakenFrom(input.src, input.percent, start, valid, [c], input.pos, input.valid)
    modifies input
    ensures |copied| > 0 && copied[0] == c && |copied| == 1 + |TailMasks(c)| && ok == ValidUnit(copied)
    ensures TakenFrom(input.src, input.percent, start, valid, copied, input.pos, input.valid)
  {
    ok := true;
    copied := [c];
    if c >= 0x80 {
      var kind := GetRange(c);
      if kind == 2 {
        copied, ok := ValidateTail(input, copied, 0x70, start, valid);
        assert copied[..1] == [c];
      } else if kind == 3 {
        copied, ok := ValidateTwo(input, c, 0x70, 0x70, start, valid);
      } else if kind == 4 {
        copied, ok := ValidateTwo(input, c, 0x50, 0x70, start, valid);
      } else if kind == 5 {
        copied, ok := ValidateThree(input, c, 0x10, 0x70, 0x70, start, valid);
      } else if kind == 6 {
        copied, ok := ValidateThree(input, c, 0x70, 0x70, 0x70, start, valid);
      } else if kind == 10 {
        copied, ok := ValidateTwo(input, c, 0x20, 0x70, start, valid);
      } else if kind == 11 {
        copied, ok := ValidateThree(input, c, 0x60, 0x70, 0x70, start, valid);
      } else {
        ok := false;
      }
    }
    VerdictUnfolded(copied);
  }
}
