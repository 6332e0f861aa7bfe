/** Whole strings: UTF-8 well-formedness, UTF-16, and transcoding one code point at a time. */
module Transcoding {
  import opened Encodings

  ghost predicate AllScalar(cps: seq<nat>) {
    forall k | 0 <= k < |cps| :: IsScalar(cps[k])
  }

  ghost function EncodeAll(cps: seq<nat>): seq<Byte>
    requires AllScalar(cps)
  {
    if cps == [] then [] else Utf8(cps[0]) + EncodeAll(cps[1..])
  }

  /** A string the validator accepts unit after unit up to its end. */
  predicate WellFormed(s: seq<Byte>) {
    s == [] ||
    var n := 1 + |TailMasks(s[0])|;
    n <= |s| && ValidUnit(s[..n]) && WellFormed(s[n..])
  }

  /** The validator accepts exactly the concatenations of encoded scalar values. */
  lemma {:induction false} WellFormedIsEncoding(s: seq<Byte>)
    ensures WellFormed(s) <==> exists cps :: AllScalar(cps) && s == EncodeAll(cps)
  {
    if WellFormed(s) {
      var cps := DecodeAll(s);
    }
    forall cps | AllScalar(cps) && s == EncodeAll(cps)
      ensures WellFormed(s)
    {
      EncodingIsWellFormed(cps);
    }
  }

  lemma {:induction false} DecodeAll(s: seq<Byte>) returns (cps: seq<nat>)
    requires WellFormed(s)
    ensures AllScalar(cps) && s == EncodeAll(cps)
  {
    if s == [] {
      cps := [];
    } else {
      var n := 1 + |TailMasks(s[0])|;
      var head, tail := s[..n], s[n..];
      assert s == head + tail;
      DecodedIsEncoded(head);
      var rest := DecodeAll(tail);
      cps := EncodeCons(CodePoint(head), rest);
    }
  }

  lemma EncodeCons(cp: nat, rest: seq<nat>) returns (cps: seq<nat>)
    requires IsScalar(cp) && AllScalar(rest)
    ensures AllScalar(cps) && EncodeAll(cps) == Utf8(cp) + EncodeAll(rest)
  {
    cps := [cp] + rest;
    assert cps[1..] == rest;
  }

  lemma {:induction false} EncodingIsWellFormed(cps: seq<nat>)
    requires AllScalar(cps)
    ensures WellFormed(EncodeAll(cps))
  {
    if cps != [] {
      EncodingIsWellFormed(cps[1..]);
      FirstUnit(cps);
    }
  }

  /** The first unit of an encoded string is the encoding of its first code point. */
  lemma FirstUnit(cps: seq<nat>)
    requires AllScalar(cps) && cps != []
    ensures var s := EncodeAll(cps); var n := 1 + |TailMasks(s[0])|;
            |s| >= n && s[..n] == Utf8(cps[0]) && s[n..] == EncodeAll(cps[1..]) && ValidUnit(s[..n])
  {
    var s, u := EncodeAll(cps), Utf8(cps[0]);
    EncodedIsDecoded(cps[0]);
    assert s == u + EncodeAll(cps[1..]) && s[0] == u[0];
    assert s[..|u|] == u && s[|u|..] == EncodeAll(cps[1..]);
  }

  lemma {:induction false} EncodeAllInjective(a: seq<nat>, b: seq<nat>)
    requires AllScalar(a) && AllScalar(b) && EncodeAll(a) == EncodeAll(b)
    ensures a == b
  {
    if a == [] || b == [] {
      if a != [] { FirstUnit(a); }
      if b != [] { FirstUnit(b); }
    } else {
      FirstUnit(a);
      FirstUnit(b);
      Utf8Injective(a[0], b[0]);
      EncodeAllInjective(a[1..], b[1..]);
      assert a == [a[0]] + a[1..] && b == [b[0]] + b[1..];
    }
  }

  // ------------------------------------------------------------------ UTF-16

  class OutputStream<T> {
    var data: seq<T>

    constructor ()
      ensures data == []
    {
      data := [];
    }

    method Put(c: T)
      modifies this
      ensures data == old(data) + [c]
    {
      data := data + [c];
    }
  }

  class WordStream {
    const src: seq<Word>
    var pos: nat

    constructor (src: seq<Word>)
      ensures this.src == src && pos == 0
    {
      this.src, this.pos := src, 0;
    }

    method Take() returns (c: Word)
      modifies this
      ensures c == (if old(pos) < |src| then src[old(pos)] else 0) && pos == old(pos) + 1
    {
      c := if pos < |src| then src[pos] else 0;
      pos := pos + 1;
    }
  }

  function WordAt(s: seq<Word>, i: nat): Word {
    if i < |s| then s[i] else 0
  }

  /** One code point in UTF-16 (section 2.1 of RFC 2781): a pair exactly above 0xFFFF. */
  ghost function Utf16(cp: nat): (ws: seq<Word>)
    requires IsScalar(cp)
    ensures |ws| == if cp > 0xFFFF then 2 else 1
  {
    if cp <= 0xFFFF then [cp]
    else [0xD800 + (cp - 0x10000) / 0x400, 0xDC00 + (cp - 0x10000) % 0x400]
  }

  /** The units and the number they spell (section 2.2 of RFC 2781): itself, or ten bits in each surrogate, the
      high ones first. */
  lemma Utf16Spells(cp: nat)
    requires IsScalar(cp)
    ensures cp < 0x1_0000 ==> Utf16(cp) == [cp]
    ensures cp >= 0x1_0000 ==>
              var u := Utf16(cp);
              && |u| == 2 && 0xD800 <= u[0] <= 0xDBFF && 0xDC00 <= u[1] <= 0xDFFF
              && cp == 0x1_0000 + (u[0] as int - 0xD800) * 0x400 + (u[1] as int - 0xDC00)
  {
  }

  ghost function EncodeAll16(cps: seq<nat>): seq<Word>
    requires AllScalar(cps)
  {
    if cps == [] then [] else Utf16(cps[0]) + EncodeAll16(cps[1..])
  }

  method EncodeUtf8(os: OutputStream<Byte>, codepoint: nat)
    requires codepoint <= 0x10FFFF
    modifies os
    ensures os.data == old(os.data) + Utf8(codepoint)
  {
    if codepoint <= 0x7F {
      os.Put(LowByte(codepoint));
    } else if codepoint <= 0x7FF {
      os.Put(0xC0 + LowByte(codepoint / 64));
      os.Put(0x80 + codepoint % 64);
    } else if codepoint <= 0xFFFF {
      os.Put(0xE0 + LowByte(codepoint / 4096));
      os.Put(0x80 + codepoint / 64 % 64);
      os.Put(0x80 + codepoint % 64);
    } else {
      os.Put(0xF0 + LowByte(codepoint / 0x4_0000));
      os.Put(0x80 + codepoint / 4096 % 64);
      os.Put(0x80 + codepoint / 64 % 64);
      os.Put(0x80 + codepoint % 64);
    }
  }

  /** A mask with 0xFF. */
  function LowByte(x: nat): (b: Byte)
    ensures x < 0x100 ==> b == x
  {
    if x < 0x100 then x else x % 0x100
  }

  method EncodeUtf16(os: OutputStream<Word>, codepoint: nat)
    requires IsScalar(codepoint)
    modifies os
    ensures os.data == old(os.data) + Utf16(codepoint)
  {
    if codepoint <= 0xFFFF {
      os.Put(codepoint);
    } else {
      var v := codepoint - 0x10000;
      os.Put(v / 0x400 + 0xD800);
      os.Put(v % 0x400 + 0xDC00);
    }
  }

  /** True exactly when the units taken are the UTF-16 form of a scalar value, which is delivered. */
  method DecodeUtf16(input: WordStream) returns (ok: bool, codepoint: nat)
    modifies input
    ensures ok && old(input.pos) < |input.src| ==> input.pos <= |input.src|
    ensures input.pos == old(input.pos) + (if 0xD800 <= WordAt(input.src, old(input.pos)) <= 0xDBFF then 2 else 1)
    ensures ok <==> exists cp: nat :: IsScalar(cp) && WordWindow(input.src, old(input.pos), input.pos) == Utf16(cp)
    ensures ok ==> IsScalar(codepoint) && WordWindow(input.src, old(input.pos), input.pos) == Utf16(codepoint)
  {
    ghost var start := input.pos;
    var c := input.Take();
    if c < 0xD800 || c > 0xDFFF {
      codepoint, ok := c, true;
    } else if c <= 0xDBFF {
      codepoint := (c % 0x400) as nat * 0x400;
      var d := input.Take();
      codepoint := codepoint + d % 0x400;
      codepoint := codepoint + 0x10000;
      ok := 0xDC00 <= d <= 0xDFFF;
      if ok {
        var hi: int, lo: int := c - 0xD800, d - 0xDC00;
        assert codepoint - 0x10000 == hi * 0x400 + lo;
      }
    } else {
      codepoint, ok := 0, false;
    }
    ghost var w := WordWindow(input.src, start, input.pos);
    if ok {
      assert w == Utf16(codepoint);
    } else {
      assert w[0] == c && (|w| == 2 ==> !(0xDC00 <= w[1] <= 0xDFFF));
      forall cp: nat | IsScalar(cp)
        ensures w != Utf16(cp)
      {
        Utf16Surrogates(cp);
      }
    }
  }

  lemma Utf16Surrogates(cp: nat)
    requires IsScalar(cp)
    ensures var u := Utf16(cp);
            if |u| == 1 then u[0] < 0xD800 || u[0] > 0xDFFF
            else 0xD800 <= u[0] <= 0xDBFF && 0xDC00 <= u[1] <= 0xDFFF
  {
  }

  ghost function WordWindow(s: seq<Word>, i: nat, j: nat): (w: seq<Word>)
    requires i <= j
    ensures |w| == j - i && forall k | 0 <= k < j - i :: w[k] == WordAt(s, i + k)
  {
    seq<Word>(j - i, k requires 0 <= k < j - i => WordAt(s, i + k))
  }

  lemma Utf16PrefixFree(a: nat, b: nat, s: seq<Word>, t: seq<Word>)
    requires IsScalar(a) && IsScalar(b) && Utf16(a) + s == Utf16(b) + t
    ensures a == b && s == t
  {
    var u, v := Utf16(a), Utf16(b);
    assert (u + s)[0] == (v + t)[0];
    assert u[0] == v[0];
    assert a > 0xFFFF <==> b > 0xFFFF;
    if a > 0xFFFF {
      assert (u + s)[1] == (v + t)[1];
    }
    assert (u + s)[|u|..] == s && (v + t)[|v|..] == t;
  }

  // ------------------------------------------------------------------ transcoding

  /** One code point from UTF-8 to UTF-16; nothing is put when the unit is ill-formed. */
  method TranscodeToUtf16(input: InputStream, os: OutputStream<Word>) returns (ok: bool, ghost cp: nat)
    requires !input.percent
    modifies input, os
    ensures input.pos == old(input.pos) + 1 + |TailMasks(At(input.src, old(input.pos)))|
    ensures var taken := Window(input.src, old(input.pos), input.pos - old(input.pos));
            && (ok <==> exists c: nat :: IsScalar(c) && taken == Utf8(c))
            && (ok ==> IsScalar(cp) && taken == Utf8(cp) && os.data == old(os.data) + Utf16(cp))
    ensures !ok ==> os.data == old(os.data)
  {
    var codepoint;
    ok, codepoint := DecodeUtf8(input);
    cp := codepoint;
    if ok {
      EncodeUtf16(os, codepoint);
    }
  }

  /** Transcodes UTF-8 to UTF-16 up to the end of the string; stops at the first ill-formed unit.
      It succeeds exactly on well-formed strings. */
  method ToUtf16(s: seq<Byte>) returns (ok: bool, ws: seq<Word>, ghost cps: seq<nat>)
    ensures ok <==> WellFormed(s)
    ensures ok ==> AllScalar(cps) && s == EncodeAll(cps) && ws == EncodeAll16(cps)
  {
    var input := new InputStream(s, 0, false);
    var os := new OutputStream<Word>();
    cps := [];
    ghost var verdict := WellFormed(s);
    assert s[0..] == s;
    while input.pos < |s|
      invariant input.pos <= |s| && !input.percent && input.src == s
      invariant AllScalar(cps) && s[..input.pos] == EncodeAll(cps) && os.data == EncodeAll16(cps)
      invariant verdict <==> WellFormed(s[input.pos..])
      decreases |s| - input.pos
    {
      ghost var start, codepoint := input.pos, 0;
      ok, codepoint := TranscodeToUtf16(input, os);
      if !ok {
        NoUnitHere(s, start, input.pos);
        return false, [], [];
      }
      AcceptedUnit(s, start, input.pos, codepoint, cps);
      cps := cps + [codepoint];
    }
    assert s[..input.pos] == s && s[input.pos..] == [];
    return true, os.data, cps;
  }

  /** A unit that validates has no zero after its lead byte, so it does not reach past the end. */
  lemma UnitInside(s: seq<Byte>, i: nat, end: nat, taken: seq<Byte>)
    requires i < |s| && i < end && taken == Window(s, i, end - i) && ValidUnit(taken)
    ensures end <= |s| && taken == s[i..end] && s[..end] == s[..i] + taken
  {
    if end > |s| {
      TailAt(s, i, taken, |s| - i);
      assert false;
    }
  }

  lemma TailAt(s: seq<Byte>, i: nat, taken: seq<Byte>, k: nat)
    requires 1 <= k < |taken| && taken == Window(s, i, |taken|) && ValidUnit(taken)
    ensures At(s, i + k) >= 0x80
  {
    TableMatchesRanges(taken);
    assert taken[k] == At(s, i + k);
  }

  /** One accepted unit: what it does to the part already decoded and to the part still to come. */
  lemma AcceptedUnit(s: seq<Byte>, i: nat, end: nat, codepoint: nat, cps: seq<nat>)
    requires i < |s| && i < end && IsScalar(codepoint) && Window(s, i, end - i) == Utf8(codepoint)
    requires AllScalar(cps) && s[..i] == EncodeAll(cps)
    ensures end <= |s| && AllScalar(cps + [codepoint])
    ensures s[..end] == EncodeAll(cps + [codepoint])
    ensures EncodeAll16(cps + [codepoint]) == EncodeAll16(cps) + Utf16(codepoint)
    ensures WellFormed(s[i..]) <==> WellFormed(s[end..])
  {
    EncodedIsDecoded(codepoint);
    var taken := Window(s, i, end - i);
    UnitInside(s, i, end, taken);
    EncodeAllAppend(cps, codepoint);
    AcceptedRest(s, i, end, taken);
  }

  lemma AcceptedRest(s: seq<Byte>, i: nat, end: nat, taken: seq<Byte>)
    requires i <= end <= |s| && taken == s[i..end] && ValidUnit(taken)
    ensures WellFormed(s[i..]) <==> WellFormed(s[end..])
  {
    var here, next := s[i..], s[end..];
    assert here[..|taken|] == taken && here[|taken|..] == next;
    DropUnit(here, taken);
  }

  lemma DropUnit(s: seq<Byte>, taken: seq<Byte>)
    requires |taken| <= |s| && s[..|taken|] == taken && ValidUnit(taken)
    ensures WellFormed(s) <==> WellFormed(s[|taken|..])
  {
    assert s[0] == taken[0];
  }

  lemma NoUnitHere(s: seq<Byte>, i: nat, end: nat)
    requires i < |s| && end == i + 1 + |TailMasks(s[i])|
    requires !exists cp: nat :: IsScalar(cp) && Window(s, i, end - i) == Utf8(cp)
    ensures !WellFormed(s[i..])
  {
    var n := end - i;
    ValidUnitIsEncoding(Window(s, i, n));
    if n <= |s[i..]| {
      assert s[i..][..n] == Window(s, i, n);
    }
  }

  lemma {:induction false} EncodeAllAppend(cps: seq<nat>, cp: nat)
    requires AllScalar(cps) && IsScalar(cp)
    ensures AllScalar(cps + [cp])
    ensures EncodeAll(cps + [cp]) == EncodeAll(cps) + Utf8(cp)
    ensures EncodeAll16(cps + [cp]) == EncodeAll16(cps) + Utf16(cp)
  {
    EncodeAll16Append(cps, cp);
    if cps == [] {
      assert [cp][1..] == [];
    } else {
      var rest := cps[1..];
      EncodeAllAppend(rest, cp);
      assert (cps + [cp])[1..] == rest + [cp];
      ConcatAssoc(Utf8(cps[0]), EncodeAll(rest), Utf8(cp));
    }
  }

  lemma {:induction false} EncodeAll16Append(cps: seq<nat>, cp: nat)
    requires AllScalar(cps) && IsScalar(cp)
    ensures AllScalar(cps + [cp]) && EncodeAll16(cps + [cp]) == EncodeAll16(cps) + Utf16(cp)
  {
    if cps == [] {
      assert [cp][1..] == [];
    } else {
      var rest := cps[1..];
      EncodeAll16Append(rest, cp);
      assert (cps + [cp])[1..] == rest + [cp];
      ConcatAssoc(Utf16(cps[0]), EncodeAll16(rest), Utf16(cp));
    }
  }

  /** One step back: the decoder takes the units of the next code point and delivers it. */
  lemma DecodedWord(ws: seq<Word>, start: nat, end: nat, cps: seq<nat>, i: nat, ok: bool, codepoint: nat)
    requires AllScalar(cps) && i <= |cps| && start < |ws| && ws[start..] == EncodeAll16(cps[i..])
    requires end == start + (if 0xD800 <= ws[start] <= 0xDBFF then 2 else 1)
    requires ok <==> exists cp: nat :: IsScalar(cp) && WordWindow(ws, start, end) == Utf16(cp)
    requires ok ==> IsScalar(codepoint) && WordWindow(ws, start, end) == Utf16(codepoint)
    ensures i < |cps| && end <= |ws| && ok && codepoint == cps[i]
    ensures ws[end..] == EncodeAll16(cps[i + 1..])
    ensures EncodeAll(cps[..i + 1]) == EncodeAll(cps[..i]) + Utf8(codepoint)
  {
    var rest, w := cps[i..], WordWindow(ws, start, end);
    var u, tail := Utf16(rest[0]), EncodeAll16(rest[1..]);
    Utf16Surrogates(rest[0]);
    assert ws[start..][0] == (u + tail)[0] == u[0];
    assert |w| == |u|;
    assert w == u by {
      forall k | 0 <= k < |w|
        ensures w[k] == u[k]
      {
        assert ws[start..][k] == (u + tail)[k];
      }
    }
    Utf16PrefixFree(rest[0], codepoint, [], []);
    assert ws[end..] == ws[start..][|w|..] == tail;
    assert rest[1..] == cps[i + 1..] && cps[..i + 1] == cps[..i] + [codepoint];
    EncodeAllAppend(cps[..i], codepoint);
  }

  /** One code point from UTF-16 to UTF-8; nothing is put when the units are ill-formed. */
  method TranscodeToUtf8(input: WordStream, os: OutputStream<Byte>) returns (ok: bool, ghost cp: nat)
    modifies input, os
    ensures input.pos == old(input.pos) + (if 0xD800 <= WordAt(input.src, old(input.pos)) <= 0xDBFF then 2 else 1)
    ensures ok <==> exists c: nat :: IsScalar(c) && WordWindow(input.src, old(input.pos), input.pos) == Utf16(c)
    ensures ok ==> IsScalar(cp) && WordWindow(input.src, old(input.pos), input.pos) == Utf16(cp)
    ensures os.data == if ok then old(os.data) + Utf8(cp) else old(os.data)
  {
    var codepoint;
    ok, codepoint := DecodeUtf16(input);
    cp := codepoint;
    if ok {
      EncodeUtf8(os, codepoint);
    }
  }

  /** The way back. */
  method ToUtf8(ws: seq<Word>, ghost cps: seq<nat>) returns (ok: bool, s: seq<Byte>)
    requires AllScalar(cps) && ws == EncodeAll16(cps)
    ensures ok && s == EncodeAll(cps)
  {
    var input := new WordStream(ws);
    var os := new OutputStream<Byte>();
    ghost var i := 0;
    assert cps[0..] == cps && cps[..0] == [];
    while input.pos < |ws|
      invariant input.pos <= |ws| && i <= |cps| && input.src == ws
      invariant ws[input.pos..] == EncodeAll16(cps[i..]) && os.data == EncodeAll(cps[..i])
      decreases |ws| - input.pos
    {
      ghost var start := input.pos;
      ghost var codepoint;
      ok, codepoint := TranscodeToUtf8(input, os);
      DecodedWord(ws, start, input.pos, cps, i, ok, codepoint);
      i := i + 1;
    }
    assert cps[..i] == cps;
    return true, os.data;
  }

  /** Transcoding there and back, one code point at a time, is the identity on every string that
      the first direction accepts, and it accepts exactly the well-formed ones. */
  method ThereAndBack(s: seq<Byte>) returns (ok: bool, back: seq<Byte>)
    ensures ok <==> exists cps :: AllScalar(cps) && s == EncodeAll(cps)
    ensures ok ==> back == s
  {
    var ws;
    ghost var cps;
    ok, ws, cps := ToUtf16(s);
    WellFormedIsEncoding(s);
    back := [];
    if ok {
      ok, back := ToUtf8(ws, cps);
    }
  }
}
