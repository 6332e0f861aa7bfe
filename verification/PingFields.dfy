/** What the receiver does with one packet, by the bytes of its fields. */
module PingFields {
  import opened Encodings
  import opened OculusFraming

  function U16(s: seq<Byte>, i: nat): nat
    requires i + 2 <= |s|
  {
    s[i] as int + 0x100 * s[i + 1] as int
  }

  function U32(s: seq<Byte>, i: nat): nat
    requires i + 4 <= |s|
  {
    s[i] as int + 0x100 * s[i + 1] as int + 0x1_0000 * s[i + 2] as int + 0x100_0000 * s[i + 3] as int
  }

  /** A header with the id of the sonar, and as many bytes behind it as its length says. */
  predicate Framed(s: seq<Byte>) {
    16 <= |s| < 0x1_0000_0000 && s[0] == 0x53 && s[1] == 0x4F && |s| == 16 + U32(s, 10)
  }

  /** A ping result of version 0, 1 or 2. */
  predicate IsPing(s: seq<Byte>)
    requires Framed(s)
  {
    U16(s, 6) == 0x23 && U16(s, 8) <= 2
  }

  /** A version's size, and where it has the sample size, the counts of ranges and beams, and the image's
      offset and size. */
  datatype Fields = Fields(total: nat, sample: nat, ranges: nat, image: nat)

  function FieldsOf(s: seq<Byte>): Fields
    requires Framed(s)
  {
    if U16(s, 8) == 2 then Fields(202, 161, 170, 190) else Fields(122, 97, 106, 110)
  }

  predicate InPlace(s: seq<Byte>, f: Fields) {
    f in {Fields(202, 161, 170, 190), Fields(122, 97, 106, 110)} && f.total <= |s|
  }

  /** The bytes of a sample, none for an unknown code. */
  function SampleSize(code: Byte): nat {
    if code <= 3 then code + 1 else 0
  }

  predicate WithGains(s: seq<Byte>)
    requires |s| > 20
  {
    s[20] / 4 % 2 == 1
  }

  /** The bytes of a row with its gain, a 16-bit number. */
  function RowLength(s: seq<Byte>, f: Fields): nat
    requires InPlace(s, f)
  {
    (SampleSize(s[f.sample]) * U16(s, f.ranges + 2) + 4) % 0x1_0000
  }

  /** A row's gain is read at the start of the row, or up to three bytes in front of it. */
  function GainPlace(s: seq<Byte>, f: Fields, row: nat): nat
    requires InPlace(s, f)
  {
    U32(s, f.image) + row * RowLength(s, f) / 4 * 4
  }

  /** The last row's gain is part of the packet. */
  predicate GainsThere(s: seq<Byte>, f: Fields)
    requires InPlace(s, f)
  {
    WithGains(s) && U16(s, f.ranges) > 0 ==> GainPlace(s, f, U16(s, f.ranges) - 1) + 4 <= |s|
  }

  /** The bytes of all samples, whose number is a signed 32-bit product, and of all gains. */
  function ImageBytes(s: seq<Byte>, f: Fields): int
    requires InPlace(s, f)
  {
    var ranges, beams := U16(s, f.ranges), U16(s, f.ranges + 2);
    var pixels := if ranges * beams < 0x8000_0000 then ranges * beams else ranges * beams - 0x1_0000_0000;
    SampleSize(s[f.sample]) * pixels + if WithGains(s) then 4 * ranges else 0
  }

  /** The machine behind the packet: stopped with the packet in its buffer; or at the start of a cycle, the
      packet posted, and handed out if it is a ping with the right image size. */
  function Behind(m: Machine, s: seq<Byte>): Machine
    requires Framed(s)
  {
    var posted, stopped := Machine(FirstByte, [], m.posts + [s], m.pings), Machine(Stopped, s, m.posts, m.pings);
    var f := FieldsOf(s);
    if !IsPing(s) then posted
    else if |s| < f.total || !GainsThere(s, f) then stopped
    else if U32(s, f.image + 4) != ImageBytes(s, f) then posted
    else if U32(s, f.image) <= 122 then stopped
    else posted.(pings := m.pings + [Ping(if U16(s, 8) == 2 then V2 else V1, s)])
  }

  lemma FieldsAgree(s: seq<Byte>, i: nat)
    ensures i + 2 <= |s| ==> Le16(s, i) == U16(s, i)
    ensures i + 4 <= |s| ==> Le32(s, i) == U32(s, i)
  {
    if i + 2 <= |s| {
      FieldOfBytes(s, i);
    }
    if i + 4 <= |s| {
      FieldOfBytes(s, i + 2);
    }
  }

  /** The gain of a row is the 32-bit number at its place. */
  lemma GainIsRead(s: seq<Byte>, layout: Layout, f: Fields, row: nat)
    requires InPlace(s, f) && f == if layout == V2 then Fields(202, 161, 170, 190) else Fields(122, 97, 106, 110)
    ensures GainInside(layout, s, row) <==> GainPlace(s, f, row) + 4 <= |s|
    ensures GainInside(layout, s, row) ==> Gain(layout, s, row) == U32(s, GainPlace(s, f, row))
  {
    FieldsAgree(s, f.ranges + 2);
    FieldsAgree(s, f.image);
    SampleProduct(s[f.sample], U16(s, f.ranges + 2));
    assert Stride(layout, s) == RowLength(s, f);
    RowsAreProduct(row, RowLength(s, f));
    assert GainAt(row, Stride(layout, s)) == row * RowLength(s, f) / 4 * 4;
    FieldsAgree(s, GainPlace(s, f, row));
  }

  lemma GainsAgree(s: seq<Byte>, layout: Layout, f: Fields)
    requires InPlace(s, f) && f == if layout == V2 then Fields(202, 161, 170, 190) else Fields(122, 97, 106, 110)
    ensures GainsInside(layout, s) <==> GainsThere(s, f)
  {
    var ranges := U16(s, f.ranges);
    FieldsAgree(s, f.ranges);
    if ranges > 0 {
      GainIsRead(s, layout, f, ranges - 1);
    }
  }

  lemma SampleProduct(code: Byte, n: int)
    ensures SampleBytes(code, n) == SampleSize(code) * n
  {
  }

  lemma ImageAgrees(s: seq<Byte>, layout: Layout, f: Fields)
    requires InPlace(s, f) && f == if layout == V2 then Fields(202, 161, 170, 190) else Fields(122, 97, 106, 110)
    ensures Le32(s, ImageOffsetAt(layout) + 4) == ExpectedImageSize(layout, s)
            <==> U32(s, f.image + 4) == ImageBytes(s, f)
  {
    var ranges, beams := U16(s, f.ranges), U16(s, f.ranges + 2);
    FieldsAgree(s, f.ranges);
    FieldsAgree(s, f.ranges + 2);
    FieldsAgree(s, f.image + 4);
    PixelsAgree(s[f.sample], ranges, beams, if WithGains(s) then 4 * ranges else 0, U32(s, f.image + 4));
    ExpectedIs(s, layout, ranges, beams);
  }

  /** The expected size, by the counts. */
  lemma ExpectedIs(s: seq<Byte>, layout: Layout, ranges: nat, beams: nat)
    requires |s| >= PingSize(layout)
    requires ranges == Le16(s, RangesAt(layout)) && beams == Le16(s, RangesAt(layout) + 2)
    ensures var product := Rows(ranges, beams);
            var pixels := if product < 0x8000_0000 then product else product - 0x1_0000_0000;
            ExpectedImageSize(layout, s)
            == Wrapped(SampleBytes(s[DataSizeAt(layout)], pixels) + if WithGains(s) then 4 * ranges else 0)
  {
  }

  lemma PixelsAgree(code: Byte, ranges: nat, beams: nat, gains: nat, size: nat)
    requires ranges < 0x1_0000 && beams < 0x1_0000 && gains < 0x1_0000_0000 && size < 0x1_0000_0000
    ensures Rows(ranges, beams) == ranges * beams < 0x1_0000_0000
    ensures var product := ranges * beams;
            var pixels := if product < 0x8000_0000 then product else product - 0x1_0000_0000;
            size == Wrapped(SampleBytes(code, pixels) + gains) <==> size == SampleSize(code) * pixels + gains
  {
    RowsAreProduct(ranges, beams);
    PixelsBound(ranges, beams);
    var product := ranges * beams;
    var pixels := if product < 0x8000_0000 then product else product - 0x1_0000_0000;
    SampleProduct(code, pixels);
    SampleBound(code, pixels);
  }

  lemma SampleBound(code: Byte, pixels: int)
    requires -0x1_0000_0000 < pixels < 0x1_0000_0000
    ensures -0x4_0000_0000 <= SampleBytes(code, pixels) <= 0x4_0000_0000
  {
  }

  lemma HeaderAgrees(s: seq<Byte>)
    requires Framed(s)
    ensures IsPacket(s) && (LayoutOf(s).Some? <==> IsPing(s))
    ensures IsPing(s) ==> LayoutOf(s) == Some(if U16(s, 8) == 2 then V2 else V1)
  {
    FieldsAgree(s, 6);
    FieldsAgree(s, 8);
    FieldsAgree(s, 10);
  }

  lemma JudgeAgrees(s: seq<Byte>)
    requires Framed(s) && IsPing(s)
    ensures var f, layout := FieldsOf(s), if U16(s, 8) == 2 then V2 else V1;
            Judge(s) == if |s| < f.total || !GainsThere(s, f) then Fatal
                        else if U32(s, f.image + 4) != ImageBytes(s, f) then Ignored
                        else if U32(s, f.image) <= 122 then Fatal else Delivered(layout)
  {
    var f, layout := FieldsOf(s), if U16(s, 8) == 2 then V2 else V1;
    HeaderAgrees(s);
    if f.total <= |s| {
      GainsAgree(s, layout, f);
      ImageAgrees(s, layout, f);
      FieldsAgree(s, f.image);
    }
  }

  /** For every packet and whatever follows it: what is posted, what is handed out, and when the receiver
      stops. */
  lemma PacketReceived(m: Machine, s: seq<Byte>, rest: seq<Byte>)
    requires Faithful(m) && m.state == FirstByte && Framed(s)
    ensures Run(m, s + rest) == Run(Behind(m, s), rest)
  {
    HeaderAgrees(s);
    ItemIsHandled(m, s, rest);
    HandledIsBehind(m, s);
  }

  lemma HandledIsBehind(m: Machine, s: seq<Byte>)
    requires Faithful(m) && m.state == FirstByte && Framed(s)
    ensures Handled(m, s) == Behind(m, s)
  {
    HeaderAgrees(s);
    PingsOfAppend(m.posts, s);
    assert m.pings + [] == m.pings;
    if IsPing(s) {
      JudgeAgrees(s);
    }
  }

  /** A byte other than the first one of the id is posted by itself. */
  lemma JunkByte(m: Machine, c: Byte, rest: seq<Byte>)
    requires Faithful(m) && m.state == FirstByte && c != 0x53
    ensures Run(m, [c] + rest) == Run(m.(posts := m.posts + [[c]]), rest)
  {
    assert m.filled + [c] == [c];
    RunStep(m, m.(posts := m.posts + [[c]]), [], [c], rest);
  }

  /** The first byte of the id is posted with the byte behind it, unless that is the second one. */
  lemma JunkPair(m: Machine, c: Byte, rest: seq<Byte>)
    requires Faithful(m) && m.state == FirstByte && c != 0x4F
    ensures Run(m, [0x53] + ([c] + rest)) == Run(m.(posts := m.posts + [[0x53, c]]), rest)
  {
    var first: seq<Byte> := [0x53];
    var second := m.(state := SecondByte, filled := first);
    assert m.filled + first == first && first + [c] == [0x53, c];
    RunStep(m, second, [], first, [c] + rest);
    RunStep(second, m.(posts := m.posts + [[0x53, c]]), first, [c], rest);
  }

  /** The packets of the framing are the framed ones. */
  lemma PacketsAreFramed(s: seq<Byte>)
    ensures IsPacket(s) <==> Framed(s)
  {
    if |s| >= 16 {
      FieldsAgree(s, 10);
    }
  }
}
