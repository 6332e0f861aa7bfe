/** The receive state machine of the Oculus driver on values: how an incoming byte stream is cut into
    posts and ping callbacks, one completed read at a time. */
module OculusFraming {
  import opened Encodings

  const HEADER_LSB: Byte := 0x53
  const HEADER_MSB: Byte := 0x4F
  const HEADER_SIZE := 16
  const SIMPLE_PING_RESULT := 0x23

  /** The two layouts of a ping result. */
  datatype Layout = V1 | V2
  datatype Ping = Ping(layout: Layout, bytes: seq<Byte>)

  /** The reading the machine waits for. */
  datatype State = FirstByte | SecondByte | Header | Packet | Stopped

  datatype Machine = Machine(state: State, filled: seq<Byte>, posts: seq<seq<Byte>>, pings: seq<Ping>)

  // ------------------------------------------------------------------ the packed header

  /** A little-endian field of n bytes. */
  function Field(s: seq<Byte>, i: nat, n: nat): (v: nat)
    requires i + n <= |s|
    ensures n == 1 ==> v < 0x100
    ensures n == 2 ==> v < 0x1_0000
    ensures n == 3 ==> v < 0x100_0000
    ensures n == 4 ==> v < UINT32_LIMIT
    decreases n
  {
    if n == 0 then 0 else s[i] + 0x100 * Field(s, i + 1, n - 1)
  }

  function Le16(s: seq<Byte>, i: nat): (v: nat)
    requires i + 2 <= |s|
    ensures v < 0x1_0000
  {
    Field(s, i, 2)
  }

  function Le32(s: seq<Byte>, i: nat): (v: nat)
    requires i + 4 <= |s|
    ensures v < UINT32_LIMIT
  {
    Field(s, i, 4)
  }

  /** A field is that of its bytes alone, wherever they stand. */
  lemma {:induction false} FieldStays(s: seq<Byte>, t: seq<Byte>, i: nat, n: nat)
    requires i + n <= |s| && i + n <= |t| && forall k | i <= k < i + n :: s[k] == t[k]
    ensures Field(s, i, n) == Field(t, i, n)
    decreases n
  {
    if n > 0 {
      FieldStays(s, t, i + 1, n - 1);
    }
  }

  lemma FieldOfBytes(s: seq<Byte>, i: nat)
    requires i + 2 <= |s|
    ensures Field(s, i, 2) == s[i] as int + 0x100 * s[i + 1] as int
    ensures i + 4 <= |s| ==> Field(s, i, 4) == Field(s, i, 2) + 0x1_0000 * Field(s, i + 2, 2)
  {
    assert Field(s, i + 1, 1) == s[i + 1] as int + 0x100 * Field(s, i + 2, 0);
    if i + 4 <= |s| {
      assert Field(s, i + 1, 3) == s[i + 1] as int + 0x100 * Field(s, i + 2, 2);
    }
  }

  function Payload(s: seq<Byte>): (v: nat)
    requires |s| >= HEADER_SIZE
    ensures v < UINT32_LIMIT
  {
    Le32(s, 10)
  }

  /** A sum of 32-bit unsigned integers. */
  function PacketSize(s: seq<Byte>): (n: nat)
    requires |s| >= HEADER_SIZE
    ensures n >= HEADER_SIZE <==> n == Payload(s) + HEADER_SIZE
  {
    var sum := Payload(s) + HEADER_SIZE;
    if sum >= UINT32_LIMIT then sum - UINT32_LIMIT else sum
  }

  /** The header announces more than a 32-bit packet size can hold. */
  predicate Overlong(s: seq<Byte>)
    requires |s| >= HEADER_SIZE
  {
    Payload(s) + HEADER_SIZE >= UINT32_LIMIT
  }

  predicate Identified(s: seq<Byte>)
    requires |s| >= 2
  {
    s[0] == HEADER_LSB && s[1] == HEADER_MSB
  }

  /** The layout that a complete packet is given to a client in, if any. */
  function LayoutOf(s: seq<Byte>): Option<Layout>
    requires |s| >= HEADER_SIZE
  {
    if Le16(s, 6) != SIMPLE_PING_RESULT then None
    else if Le16(s, 8) <= 1 then Some(V1)
    else if Le16(s, 8) == 2 then Some(V2)
    else None
  }

  // ------------------------------------------------------------------ the packed ping structures

  /** The size of the structure in front of the bearings and the image. */
  function PingSize(layout: Layout): nat {
    match layout
    case V1 => 122
    case V2 => 202
  }

  /** Where the structure has its element size, its two counts, and the offset and size of the image. */
  function DataSizeAt(layout: Layout): nat {
    match layout
    case V1 => 97
    case V2 => 161
  }

  function RangesAt(layout: Layout): nat {
    match layout
    case V1 => 106
    case V2 => 170
  }

  function ImageOffsetAt(layout: Layout): nat {
    match layout
    case V1 => 110
    case V2 => 190
  }

  const FLAGS_AT := 20
  const INT32_LIMIT := 0x8000_0000

  /** Bytes for a number of samples, by the size of each; none for an unknown size. */
  function SampleBytes(dataSize: Byte, samples: int): int {
    match dataSize
    case 0 => samples
    case 1 => 2 * samples
    case 2 => 3 * samples
    case 3 => 4 * samples
    case _ => 0
  }

  /** Bit 2 of the flags: each row of the image starts with a four-byte gain. */
  predicate SendsGain(s: seq<Byte>)
    requires FLAGS_AT < |s|
  {
    s[FLAGS_AT] / 4 % 2 == 1
  }

  /** The same number for each of n rows: their product. */
  function Rows(n: nat, each: nat): nat {
    if n == 0 then 0 else Rows(n - 1, each) + each
  }

  lemma {:induction false} RowsAreProduct(n: nat, each: nat)
    ensures Rows(n, each) == n * each
  {
    if n > 0 {
      RowsAreProduct(n - 1, each);
      assert n * each == (n - 1) * each + each;
    }
  }

  lemma {:induction false} RowsIncrease(m: nat, n: nat, each: nat)
    requires m <= n
    ensures Rows(m, each) <= Rows(n, each)
    decreases n
  {
    if m < n {
      RowsIncrease(m, n - 1, each);
    }
  }

  /** The bytes from one row of the image to the next when each starts with a gain: a 16-bit number. */
  function Stride(layout: Layout, s: seq<Byte>): nat
    requires |s| >= PingSize(layout)
  {
    (SampleBytes(s[DataSizeAt(layout)], Le16(s, RangesAt(layout) + 2)) + 4) % 0x1_0000
  }

  /** The gain of a row is read as the four-byte number at or before the start of the row. */
  function GainAt(row: nat, stride: nat): (at: nat)
    ensures at % 4 == 0 && at <= Rows(row, stride) < at + 4
  {
    Rows(row, stride) / 4 * 4
  }

  /** The overlay of gains copies one for each row, and the last of them is still part of the packet. */
  predicate GainsInside(layout: Layout, s: seq<Byte>)
    requires |s| >= PingSize(layout)
  {
    var rows := Le16(s, RangesAt(layout));
    SendsGain(s) && rows > 0 ==> GainInside(layout, s, rows - 1)
  }

  predicate GainInside(layout: Layout, s: seq<Byte>, row: nat)
    requires |s| >= PingSize(layout)
  {
    Le32(s, ImageOffsetAt(layout)) + GainAt(row, Stride(layout, s)) + 4 <= |s|
  }

  function Gain(layout: Layout, s: seq<Byte>, row: nat): nat
    requires |s| >= PingSize(layout) && GainInside(layout, s, row)
  {
    Le32(s, Le32(s, ImageOffsetAt(layout)) + GainAt(row, Stride(layout, s)))
  }

  /** The last gain decides for all. */
  lemma EveryGainInside(layout: Layout, s: seq<Byte>)
    requires |s| >= PingSize(layout)
    ensures GainsInside(layout, s)
            <==> (SendsGain(s) ==> forall row | 0 <= row < Le16(s, RangesAt(layout)) :: GainInside(layout, s, row))
  {
    var rows := Le16(s, RangesAt(layout));
    forall row | 0 <= row < rows
      ensures GainInside(layout, s, rows - 1) ==> GainInside(layout, s, row)
    {
      RowsIncrease(row, rows - 1, Stride(layout, s));
    }
  }

  /** A small signed number as a 64-bit unsigned one. */
  function Wrapped(x: int): nat
    requires -SIZE_LIMIT <= x
  {
    if x < 0 then x + SIZE_LIMIT else x
  }

  /** The number of pixels in a 32-bit signed integer, and the size of the image in a 64-bit unsigned
      one: a product of counts beyond 2^31 is negative, and wraps again when it is converted. */
  function ExpectedImageSize(layout: Layout, s: seq<Byte>): nat
    requires |s| >= PingSize(layout)
  {
    var ranges, beams := Le16(s, RangesAt(layout)), Le16(s, RangesAt(layout) + 2);
    var product := Rows(ranges, beams);
    var pixels := if product < INT32_LIMIT then product else product - UINT32_LIMIT;
    var bytes := SampleBytes(s[DataSizeAt(layout)], pixels);
    Wrapped(bytes + if SendsGain(s) then 4 * ranges else 0)
  }

  /** The size is that of the samples and gains, whenever the number of pixels fits its integer or there
      are no samples to count, and never otherwise. */
  lemma ImageSizeIsExact(layout: Layout, s: seq<Byte>)
    requires |s| >= PingSize(layout)
    ensures var ranges, beams := Le16(s, RangesAt(layout)), Le16(s, RangesAt(layout) + 2);
            ExpectedImageSize(layout, s)
            == SampleBytes(s[DataSizeAt(layout)], ranges * beams) + (if SendsGain(s) then 4 * ranges else 0)
            <==> ranges * beams < INT32_LIMIT || s[DataSizeAt(layout)] > 3
  {
    var ranges, beams := Le16(s, RangesAt(layout)), Le16(s, RangesAt(layout) + 2);
    RowsAreProduct(ranges, beams);
    PixelsBound(ranges, beams);
    SizeIsExact(s[DataSizeAt(layout)], ranges * beams, if SendsGain(s) then 4 * ranges else 0);
  }

  lemma SizeIsExact(dataSize: Byte, product: nat, gains: nat)
    requires product < UINT32_LIMIT && gains < UINT32_LIMIT
    ensures var pixels := if product < INT32_LIMIT then product else product - UINT32_LIMIT;
            Wrapped(SampleBytes(dataSize, pixels) + gains) == SampleBytes(dataSize, product) + gains
            <==> product < INT32_LIMIT || dataSize > 3
  {
  }

  lemma {:induction false} PixelsBound(ranges: nat, beams: nat)
    requires ranges < 0x1_0000 && beams < 0x1_0000
    ensures Rows(ranges, beams) <= ranges * 0xFFFF
  {
    if ranges > 0 {
      PixelsBound(ranges - 1, beams);
    }
  }

  /** What becomes of a packet: nothing, a callback, or the end of the process.  The constructor asserts
      that the whole structure is there, and then copies the gains from wherever the image offset points;
      a ping with the right image size must have its image behind the structure of the first layout,
      whatever its own. */
  datatype Verdict = Ignored | Delivered(layout: Layout) | Fatal

  function Judge(s: seq<Byte>): Verdict
    requires |s| >= HEADER_SIZE
  {
    match LayoutOf(s)
    case None => Ignored
    case Some(layout) =>
      if |s| < PingSize(layout) || !GainsInside(layout, s) then Fatal
      else if Le32(s, ImageOffsetAt(layout) + 4) != ExpectedImageSize(layout, s) then Ignored
      else if Le32(s, ImageOffsetAt(layout)) <= PingSize(V1) then Fatal
      else Delivered(layout)
  }

  /** What the format itself says, without reference to the machine: a header with the Oculus id that
      announces exactly the bytes behind it. */
  predicate IsPacket(s: seq<Byte>) {
    |s| >= HEADER_SIZE && Identified(s) && |s| == Payload(s) + HEADER_SIZE && !Overlong(s)
  }

  function PingOf(s: seq<Byte>): Option<Ping> {
    if IsPacket(s) && Judge(s).Delivered? then Some(Ping(Judge(s).layout, s)) else None
  }

  function PingsOf(posts: seq<seq<Byte>>): seq<Ping> {
    if posts == [] then []
    else
      var last := PingOf(posts[|posts| - 1]);
      PingsOf(posts[..|posts| - 1]) + if last.Some? then [last.value] else []
  }

  function Flatten(posts: seq<seq<Byte>>): seq<Byte> {
    if posts == [] then [] else Flatten(posts[..|posts| - 1]) + posts[|posts| - 1]
  }

  // ------------------------------------------------------------------ the machine

  const START := Machine(FirstByte, [], [], [])

  /** The states the machine can be in: what is in the buffer fits what it waits for. */
  ghost predicate Ok(m: Machine) {
    match m.state
    case FirstByte => m.filled == []
    case SecondByte => |m.filled| == 1 && m.filled[0] == HEADER_LSB
    case Header => |m.filled| == 2 && Identified(m.filled)
    case Packet =>
      |m.filled| < HEADER_SIZE || (|m.filled| == HEADER_SIZE && Identified(m.filled) && !Overlong(m.filled))
    case Stopped => true
  }

  /** How many bytes the pending read still asks for. */
  function Wanted(m: Machine): nat {
    match m.state
    case FirstByte => 1
    case SecondByte => 1
    case Header => HEADER_SIZE - 2
    case Packet => if |m.filled| < HEADER_SIZE || PacketSize(m.filled) < HEADER_SIZE then 0
                   else PacketSize(m.filled) - HEADER_SIZE
    case Stopped => 0
  }

  function Restart(m: Machine, all: seq<Byte>): Machine {
    Machine(FirstByte, [], if |all| > 0 then m.posts + [all] else m.posts, m.pings)
  }

  /** One completed read. */
  function Advance(m: Machine, chunk: seq<Byte>): (r: Machine)
    requires Ok(m) && m.state != Stopped && |chunk| == Wanted(m)
    ensures Ok(r)
  {
    var all := m.filled + chunk;
    match m.state
    case FirstByte => if all[0] == HEADER_LSB then m.(state := SecondByte, filled := all) else Restart(m, all)
    case SecondByte => if all[1] == HEADER_MSB then m.(state := Header, filled := all) else Restart(m, all)
    case Header =>
      m.(state := Packet, filled := if PacketSize(all) < HEADER_SIZE then all[..PacketSize(all)] else all)
    case Packet =>
      if |m.filled| < HEADER_SIZE then m.(state := Stopped)
      else
        match Judge(all)
        case Ignored => Restart(m, all)
        case Delivered(layout) => Restart(m.(pings := m.pings + [Ping(layout, all)]), all)
        case Fatal => m.(state := Stopped, filled := all)
  }

  /** All reads that the input completes; also returns the bytes left over. */
  function Run(m: Machine, input: seq<Byte>): (r: (Machine, seq<Byte>))
    requires Ok(m)
    ensures Ok(r.0)
    decreases |input|, if m.state == Packet then 1 else 0
  {
    if m.state == Stopped || |input| < Wanted(m) then (m, input)
    else Run(Advance(m, input[..Wanted(m)]), input[Wanted(m)..])
  }

  // ------------------------------------------------------------------ conservation

  function Kept(m: Machine): seq<Byte> {
    Flatten(m.posts) + m.filled
  }

  lemma FlattenAppend(posts: seq<seq<Byte>>, all: seq<Byte>)
    ensures Flatten(posts + [all]) == Flatten(posts) + all
  {
    assert (posts + [all])[..|posts|] == posts;
  }

  lemma RestartKeeps(m: Machine, all: seq<Byte>)
    ensures Kept(Restart(m, all)) == Flatten(m.posts) + all
  {
    FlattenAppend(m.posts, all);
  }

  /** A completed read loses a byte exactly when it brings a header whose packet size wraps; and it keeps
      all bytes in a receiver that goes on exactly when it does not bring its end. */
  lemma StepConserves(m: Machine, chunk: seq<Byte>)
    requires Ok(m) && m.state != Stopped && |chunk| == Wanted(m)
    ensures Kept(Advance(m, chunk)) == Kept(m) + chunk
            <==> !(m.state == Header && Overlong(m.filled + chunk))
    ensures Advance(m, chunk).state != Stopped && Kept(Advance(m, chunk)) == Kept(m) + chunk <==> !StopsAt(m, chunk)
  {
    var all := m.filled + chunk;
    ConcatAssoc(Flatten(m.posts), m.filled, chunk);
    RestartKeeps(m, all);
    if m.state == Packet {
      if |m.filled| < HEADER_SIZE {
        assert chunk == [] && all == m.filled;
      } else {
        var pings := if Judge(all).Delivered? then [Ping(Judge(all).layout, all)] else [];
        RestartKeeps(m.(pings := m.pings + pings), all);
      }
    }
    if m.state == Header && Overlong(all) {
      OverlongLoses(m, chunk);
    }
  }

  lemma OverlongLoses(m: Machine, chunk: seq<Byte>)
    requires Ok(m) && m.state == Header && |chunk| == Wanted(m) && Overlong(m.filled + chunk)
    ensures |Kept(Advance(m, chunk))| < |Kept(m)| + |chunk|
  {
    var r := Advance(m, chunk);
    assert |r.filled| < HEADER_SIZE;
    assert |Kept(r)| == |Flatten(m.posts)| + |r.filled|;
  }

  /** The completed read is one after which nothing more is received: a header whose packet size wraps,
      or a ping packet that ends the process. */
  predicate StopsAt(m: Machine, chunk: seq<Byte>)
    requires Ok(m) && m.state != Stopped && |chunk| == Wanted(m)
  {
    match m.state
    case Header => Overlong(m.filled + chunk)
    case Packet => |m.filled| < HEADER_SIZE || Judge(m.filled + chunk) == Fatal
    case _ => false
  }

  /** The run comes to such a read. */
  predicate MeetsStop(m: Machine, input: seq<Byte>)
    requires Ok(m)
    decreases |input|, if m.state == Packet then 1 else 0
  {
    if m.state == Stopped || |input| < Wanted(m) then false
    else
      var chunk := input[..Wanted(m)];
      StopsAt(m, chunk) || MeetsStop(Advance(m, chunk), input[Wanted(m)..])
  }

  /** Receiving goes on after every run, exactly unless the run meets an overlong header or a ping packet
      that ends the process. */
  lemma {:induction false} RunGoesOn(m: Machine, input: seq<Byte>)
    requires Ok(m) && m.state != Stopped
    ensures Run(m, input).0.state != Stopped <==> !MeetsStop(m, input)
    decreases |input|, if m.state == Packet then 1 else 0
  {
    if |input| >= Wanted(m) {
      var chunk, tail := input[..Wanted(m)], input[Wanted(m)..];
      var next := Advance(m, chunk);
      if m.state == Header && Overlong(m.filled + chunk) {
        assert Wanted(next) == 0 && tail[..0] == [];
        assert Run(next, tail) == Run(Advance(next, []), tail[0..]);
      } else if next.state != Stopped {
        RunGoesOn(next, tail);
      }
    }
  }

  /** The run meets a header whose packet size wraps. */
  predicate MeetsOverlong(m: Machine, input: seq<Byte>)
    requires Ok(m)
    decreases |input|, if m.state == Packet then 1 else 0
  {
    if m.state == Stopped || |input| < Wanted(m) then false
    else
      var chunk := input[..Wanted(m)];
      || (m.state == Header && Overlong(m.filled + chunk))
      || MeetsOverlong(Advance(m, chunk), input[Wanted(m)..])
  }

  lemma {:induction false} RunNeverGrows(m: Machine, input: seq<Byte>)
    requires Ok(m)
    ensures var (r, rest) := Run(m, input); |Kept(r)| + |rest| <= |Kept(m)| + |input|
    decreases |input|, if m.state == Packet then 1 else 0
  {
    if m.state != Stopped && |input| >= Wanted(m) {
      var chunk := input[..Wanted(m)];
      StepNeverGrows(m, chunk);
      RunNeverGrows(Advance(m, chunk), input[Wanted(m)..]);
    }
  }

  lemma StepNeverGrows(m: Machine, chunk: seq<Byte>)
    requires Ok(m) && m.state != Stopped && |chunk| == Wanted(m)
    ensures |Kept(Advance(m, chunk))| <= |Kept(m)| + |chunk|
    ensures m.state == Header && Overlong(m.filled + chunk) ==>
              |Kept(Advance(m, chunk))| < |Kept(m)| + |chunk|
  {
    if !(m.state == Header && Overlong(m.filled + chunk)) {
      StepConserves(m, chunk);
    }
  }

  lemma {:induction false} RunKeeps(m: Machine, input: seq<Byte>)
    requires Ok(m)
    ensures var (r, rest) := Run(m, input);
            Kept(r) + rest == Kept(m) + input <==> !MeetsOverlong(m, input)
    decreases |input|, if m.state == Packet then 1 else 0
  {
    if m.state != Stopped && |input| >= Wanted(m) {
      var chunk, tail := input[..Wanted(m)], input[Wanted(m)..];
      var next := Advance(m, chunk);
      assert input == chunk + tail;
      if m.state == Header && Overlong(m.filled + chunk) {
        StepNeverGrows(m, chunk);
        RunNeverGrows(next, tail);
      } else {
        StepConserves(m, chunk);
        ConcatAssoc(Kept(m), chunk, tail);
        RunKeeps(next, tail);
      }
    }
  }

  lemma {:induction false} OverlongStops(m: Machine, input: seq<Byte>)
    requires Ok(m) && MeetsOverlong(m, input)
    ensures MeetsStop(m, input)
    decreases |input|, if m.state == Packet then 1 else 0
  {
    var chunk := input[..Wanted(m)];
    if !StopsAt(m, chunk) {
      OverlongStops(Advance(m, chunk), input[Wanted(m)..]);
    }
  }

  /** Whole runs over any stream, well formed or not.  What was posted, what is in the buffer and what was
      not yet read make up the input again exactly when no header's packet size wraps; and they do so in
      a receiver that goes on exactly when, moreover, no ping packet ends the process. */
  lemma RunConserves(m: Machine, input: seq<Byte>)
    requires Ok(m) && m.state != Stopped
    ensures var (r, rest) := Run(m, input);
            && (Kept(r) + rest == Kept(m) + input <==> !MeetsOverlong(m, input))
            && (r.state != Stopped && Kept(r) + rest == Kept(m) + input <==> !MeetsStop(m, input))
  {
    RunGoesOn(m, input);
    RunKeeps(m, input);
    if MeetsOverlong(m, input) {
      OverlongStops(m, input);
    }
  }

  /** A header announcing 2^32 - 16 payload bytes: sixteen bytes were read, none is kept. */
  lemma OverlongExample()
    ensures var header: seq<Byte> := [0x53, 0x4F, 0, 0, 0, 0, 0x23, 0, 2, 0, 0xF0, 0xFF, 0xFF, 0xFF, 0, 0];
            var (r, rest) := Run(START, header);
            r.state == Stopped && rest == [] && Kept(r) == []
  {
    var header: seq<Byte> := [0x53, 0x4F, 0, 0, 0, 0, 0x23, 0, 2, 0, 0xF0, 0xFF, 0xFF, 0xFF, 0, 0];
    FieldOfBytes(header, 10);
    FieldOfBytes(header, 12);
    OverlongRun(header);
  }

  lemma OverlongRun(header: seq<Byte>)
    requires |header| == HEADER_SIZE && Identified(header) && Payload(header) == UINT32_LIMIT - HEADER_SIZE
    ensures Run(START, header) == (Machine(Stopped, [], [], []), [])
  {
    var m1, m2 := Machine(SecondByte, header[..1], [], []), Machine(Header, header[..2], [], []);
    var m3 := Machine(Packet, [], [], []);
    assert header == header[..1] + header[1..] && header[1..] == header[1..2] + header[2..];
    assert header[..1] + header[1..2] == header[..2] && header[..2] + header[2..] == header;
    RunStep(START, m1, [], header[..1], header[1..]);
    RunStep(m1, m2, header[..1], header[1..2], header[2..]);
    assert header[2..] + [] == header[2..];
    RunStep(m2, m3, header[..2], header[2..], []);
    RunStep(m3, m3.(state := Stopped), [], [], []);
  }

  // ------------------------------------------------------------------ callbacks

  /** The machine's history is consistent: the pings handed out are exactly the valid ping packets
      among the posts, in order. */
  ghost predicate Faithful(m: Machine) {
    Ok(m) && m.pings == PingsOf(m.posts)
  }

  lemma PingsOfAppend(posts: seq<seq<Byte>>, all: seq<Byte>)
    ensures var p := PingOf(all);
            PingsOf(posts + [all]) == PingsOf(posts) + if p.Some? then [p.value] else []
  {
    assert (posts + [all])[..|posts|] == posts;
  }

  lemma StepIsFaithful(m: Machine, chunk: seq<Byte>)
    requires Faithful(m) && m.state != Stopped && |chunk| == Wanted(m)
    ensures Faithful(Advance(m, chunk))
  {
    var all := m.filled + chunk;
    PingsOfAppend(m.posts, all);
    if m.state == Packet && |m.filled| == HEADER_SIZE {
      PostComplete(m, chunk);
    }
  }

  lemma HeaderStays(header: seq<Byte>, payload: seq<Byte>)
    requires |header| == HEADER_SIZE
    ensures Payload(header + payload) == Payload(header) && LayoutOf(header + payload) == LayoutOf(header)
    ensures Identified(header + payload) == Identified(header)
  {
    var all := header + payload;
    assert forall i | 0 <= i < 16 :: all[i] == header[i];
    FieldStays(all, header, 10, 4);
    FieldStays(all, header, 6, 2);
    FieldStays(all, header, 8, 2);
  }

  /** On any stream at all, every callback is one of the posts, is a complete packet of the format,
      and no post that is a valid ping packet goes without its callback. */
  lemma {:induction false} RunIsFaithful(m: Machine, input: seq<Byte>)
    requires Faithful(m)
    ensures Faithful(Run(m, input).0)
    decreases |input|, if m.state == Packet then 1 else 0
  {
    if m.state != Stopped && |input| >= Wanted(m) {
      var chunk := input[..Wanted(m)];
      StepIsFaithful(m, chunk);
      RunIsFaithful(Advance(m, chunk), input[Wanted(m)..]);
    }
  }

  // ------------------------------------------------------------------ framing

  /** A stream of packets separated by junk: each item is a packet, or one byte that cannot be taken
      for the start of one. */
  ghost predicate IsItem(item: seq<Byte>) {
    IsPacket(item) || (|item| == 1 && item[0] != HEADER_LSB)
  }

  ghost predicate AreItems(items: seq<seq<Byte>>) {
    forall i | 0 <= i < |items| :: IsItem(items[i])
  }

  /** No packet among them ends the process. */
  ghost predicate Harmless(items: seq<seq<Byte>>) {
    forall i | 0 <= i < |items| :: !FatalItem(items[i])
  }

  /** A packet that ends the process when it is complete. */
  predicate FatalItem(item: seq<Byte>) {
    IsPacket(item) && Judge(item) == Fatal
  }

  /** The start of a cycle, with a history of posts. */
  function CycleStart(posts: seq<seq<Byte>>): Machine {
    Machine(FirstByte, [], posts, PingsOf(posts))
  }

  /** The machine after an item at the start of a cycle. */
  function Handled(m: Machine, item: seq<Byte>): Machine {
    if FatalItem(item) then Machine(Stopped, item, m.posts, m.pings) else CycleStart(m.posts + [item])
  }

  lemma ItemIsHandled(m: Machine, item: seq<Byte>, rest: seq<Byte>)
    requires Faithful(m) && m.state == FirstByte && IsItem(item)
    ensures Run(m, item + rest) == Run(Handled(m, item), rest)
  {
    PingsOfAppend(m.posts, item);
    if !IsPacket(item) {
      assert m.filled + item == item;
      assert PingsOf(m.posts + [item]) == m.pings;
      RunStep(m, Restart(m, item), [], item, rest);
    } else {
      PacketIsHandled(m, item, rest);
    }
  }

  lemma PacketIsHandled(m: Machine, item: seq<Byte>, rest: seq<Byte>)
    requires Faithful(m) && m.state == FirstByte && IsPacket(item)
    ensures Run(m, item + rest) == Run(Handled(m, item), rest)
  {
    var rest1, rest2, rest16 := item[1..] + rest, item[2..] + rest, item[16..] + rest;
    assert item + rest == item[..1] + rest1;
    assert rest1 == item[1..2] + rest2;
    assert rest2 == item[2..16] + rest16;
    PacketSteps(m, item);
    RunStep(m, Opened(m, item, 1), [], item[..1], rest1);
    RunStep(Opened(m, item, 1), Opened(m, item, 2), item[..1], item[1..2], rest2);
    RunStep(Opened(m, item, 2), Opened(m, item, 16), item[..2], item[2..16], rest16);
    RunStep(Opened(m, item, 16), Handled(m, item), item[..16], item[16..], rest);
  }

  /** The machine after the first n bytes of a packet, where n is one of the three places at which a
      read ends. */
  function Opened(m: Machine, item: seq<Byte>, n: nat): Machine
    requires n <= |item|
  {
    m.(state := if n == 1 then SecondByte else if n == 2 then Header else Packet, filled := item[..n])
  }

  lemma PacketSteps(m: Machine, item: seq<Byte>)
    requires Faithful(m) && m.state == FirstByte && IsPacket(item)
    ensures Advance(m, item[..1]) == Opened(m, item, 1)
    ensures Ok(Opened(m, item, 1)) && Advance(Opened(m, item, 1), item[1..2]) == Opened(m, item, 2)
    ensures Ok(Opened(m, item, 2)) && Advance(Opened(m, item, 2), item[2..16]) == Opened(m, item, 16)
    ensures Ok(Opened(m, item, 16)) && Wanted(Opened(m, item, 16)) == |item| - 16
    ensures Advance(Opened(m, item, 16), item[16..]) == Handled(m, item)
  {
    assert m.filled + item[..1] == item[..1];
    assert item[..1] + item[1..2] == item[..2];
    assert item[..2] + item[2..16] == item[..16];
    assert item[..16] + item[16..] == item;
    HeaderStays(item[..16], item[16..]);
    PostComplete(Opened(m, item, 16), item[16..]);
    PingsOfAppend(m.posts, item);
  }

  /** The read that completes a packet posts it, and hands it out when it is a valid ping; or it ends the
      process. */
  lemma PostComplete(m: Machine, payload: seq<Byte>)
    requires Ok(m) && m.state == Packet && |m.filled| == HEADER_SIZE && |payload| == Wanted(m)
    ensures var all, p := m.filled + payload, PingOf(m.filled + payload);
            IsPacket(all) && Advance(m, payload)
            == if Judge(all) == Fatal then Machine(Stopped, all, m.posts, m.pings)
               else Machine(FirstByte, [], m.posts + [all], m.pings + if p.Some? then [p.value] else [])
  {
    HeaderStays(m.filled, payload);
  }

  lemma RunStep(m: Machine, next: Machine, filled: seq<Byte>, chunk: seq<Byte>, rest: seq<Byte>)
    requires Ok(m) && m.state != Stopped && m.filled == filled && |chunk| == Wanted(m)
    requires Advance(m, chunk) == next
    ensures Run(m, chunk + rest) == Run(next, rest)
  {
    assert (chunk + rest)[..|chunk|] == chunk && (chunk + rest)[|chunk|..] == rest;
  }

  /** Framing inverts concatenation: from the start of a cycle, a stream of packets and junk bytes is
      posted item by item, its valid ping packets are handed out in order, and the machine is back at
      the start of a cycle with an empty buffer, exactly when no packet among them ends the process. */
  lemma FramingInvertsConcatenation(m: Machine, items: seq<seq<Byte>>)
    requires Faithful(m) && m.state == FirstByte && AreItems(items)
    ensures Run(m, Flatten(items)) == (CycleStart(m.posts + items), []) <==> Harmless(items)
  {
    FramePrefix(m, items, []);
    assert Flatten(items) + [] == Flatten(items);
  }

  lemma {:induction false} FramePrefix(m: Machine, items: seq<seq<Byte>>, rest: seq<Byte>)
    requires Faithful(m) && m.state == FirstByte && AreItems(items)
    ensures if Harmless(items) then Run(m, Flatten(items) + rest) == Run(CycleStart(m.posts + items), rest)
            else Run(m, Flatten(items) + rest).0.state == Stopped
  {
    if items == [] {
      assert m.posts + items == m.posts && Flatten(items) + rest == rest;
    } else {
      var init, last := items[..|items| - 1], items[|items| - 1];
      FramePrefix(m, init, last + rest);
      ConcatAssoc(Flatten(init), last, rest);
      ConcatAssoc(m.posts, init, [last]);
      assert items == init + [last];
      HarmlessAppend(init, last);
      if Harmless(init) {
        ItemIsHandled(CycleStart(m.posts + init), last, rest);
      }
    }
  }

  lemma HarmlessAppend(init: seq<seq<Byte>>, last: seq<Byte>)
    ensures Harmless(init + [last]) <==> Harmless(init) && !FatalItem(last)
  {
    var items := init + [last];
    assert items[|init|] == last && forall i | 0 <= i < |init| :: items[i] == init[i];
  }

  /** What the first failing packet does: it stays in the buffer, unposted, and nothing behind it is
      read. */
  lemma FatalItemStops(m: Machine, items: seq<seq<Byte>>, item: seq<Byte>, rest: seq<Byte>)
    requires Faithful(m) && m.state == FirstByte && AreItems(items) && Harmless(items) && FatalItem(item)
    ensures Run(m, Flatten(items) + (item + rest))
            == (Machine(Stopped, item, m.posts + items, PingsOf(m.posts + items)), rest)
  {
    FramePrefix(m, items, item + rest);
    ItemIsHandled(CycleStart(m.posts + items), item, rest);
  }

  lemma ShortPingStops(packet: seq<Byte>, rest: seq<Byte>)
    requires IsPacket(packet) && LayoutOf(packet).Some? && |packet| < PingSize(LayoutOf(packet).value)
    ensures Run(START, packet + rest) == (Machine(Stopped, packet, [], []), rest)
  {
    ItemIsHandled(START, packet, rest);
  }

  /** A ping result of version 2 without payload is a complete packet, but shorter than its structure. */
  lemma ShortPingExample(rest: seq<Byte>)
    ensures var packet: seq<Byte> := [0x53, 0x4F, 0, 0, 0, 0, 0x23, 0, 2, 0, 0, 0, 0, 0, 0, 0];
            IsPacket(packet) && Run(START, packet + rest) == (Machine(Stopped, packet, [], []), rest)
  {
    var packet: seq<Byte> := [0x53, 0x4F, 0, 0, 0, 0, 0x23, 0, 2, 0, 0, 0, 0, 0, 0, 0];
    FieldOfBytes(packet, 6);
    FieldOfBytes(packet, 8);
    FieldOfBytes(packet, 10);
    FieldOfBytes(packet, 12);
    ShortPingStops(packet, rest);
  }

  lemma GainOutsideStops(packet: seq<Byte>, layout: Layout, rest: seq<Byte>)
    requires IsPacket(packet) && LayoutOf(packet) == Some(layout) && |packet| >= PingSize(layout)
    requires !GainsInside(layout, packet)
    ensures Run(START, packet + rest) == (Machine(Stopped, packet, [], []), rest)
  {
    ItemIsHandled(START, packet, rest);
  }

  /** A ping result of version 1 as long as its structure: gains sent, one row without beams, an image
      of the right four bytes, and an image offset of 2^31 - 1. */
  const GAIN_FAR_AWAY: seq<Byte> := seq(122, i => FarAwayByte(i))

  function FarAwayByte(i: int): Byte {
    match i
    case 0 => HEADER_LSB
    case 1 => HEADER_MSB
    case 6 => 0x23
    case 8 => 1
    case 10 => 106
    case 20 => 4
    case 106 => 1
    case 110 => 0xFF
    case 111 => 0xFF
    case 112 => 0xFF
    case 113 => 0x7F
    case 114 => 4
    case _ => 0
  }

  /** The image size is right and the image is behind the structure, but copying the gain reads far past
      the packet. */
  lemma GainOutsideExample(rest: seq<Byte>)
    ensures IsPacket(GAIN_FAR_AWAY) && LayoutOf(GAIN_FAR_AWAY) == Some(V1)
    ensures Le32(GAIN_FAR_AWAY, ImageOffsetAt(V1) + 4) == ExpectedImageSize(V1, GAIN_FAR_AWAY)
    ensures Le32(GAIN_FAR_AWAY, ImageOffsetAt(V1)) > PingSize(V1)
    ensures Run(START, GAIN_FAR_AWAY + rest) == (Machine(Stopped, GAIN_FAR_AWAY, [], []), rest)
  {
    GainFarAway(GAIN_FAR_AWAY);
    GainOutsideStops(GAIN_FAR_AWAY, V1, rest);
  }

  lemma GainFarAway(s: seq<Byte>)
    requires |s| == 122 && forall i | 0 <= i < 122 :: s[i] == FarAwayByte(i)
    ensures IsPacket(s) && LayoutOf(s) == Some(V1) && !GainsInside(V1, s)
    ensures Le32(s, ImageOffsetAt(V1) + 4) == ExpectedImageSize(V1, s) && Le32(s, ImageOffsetAt(V1)) > PingSize(V1)
  {
    FarAwayFields(s);
    assert Rows(1, 0) == Rows(0, 0) + 0;
  }

  lemma FarAwayFields(s: seq<Byte>)
    requires |s| == 122 && forall i | 0 <= i < 122 :: s[i] == FarAwayByte(i)
    ensures Identified(s) && SendsGain(s) && s[97] == 0
    ensures Payload(s) == 106 && Le16(s, 6) == SIMPLE_PING_RESULT && Le16(s, 8) == 1
    ensures Le16(s, 106) == 1 && Le16(s, 108) == 0
    ensures Le32(s, 110) == INT32_LIMIT - 1 && Le32(s, 114) == 4
  {
    Le16Is(s, 6, 0x23, 0);
    Le16Is(s, 8, 1, 0);
    Le16Is(s, 106, 1, 0);
    Le16Is(s, 108, 0, 0);
    Le32Is(s, 10, [106, 0, 0, 0]);
    Le32Is(s, 110, [0xFF, 0xFF, 0xFF, 0x7F]);
    Le32Is(s, 114, [4, 0, 0, 0]);
  }

  lemma Le16Is(s: seq<Byte>, i: nat, low: Byte, high: Byte)
    requires i + 2 <= |s| && s[i] == low && s[i + 1] == high
    ensures Le16(s, i) == low as int + 0x100 * high as int
  {
    FieldOfBytes(s, i);
  }

  lemma Le32Is(s: seq<Byte>, i: nat, bytes: seq<Byte>)
    requires i + 4 <= |s| && |bytes| == 4 && forall k | 0 <= k < 4 :: s[i + k] == bytes[k]
    ensures Le32(s, i) == bytes[0] as int + 0x100 * bytes[1] as int
                          + 0x1_0000 * (bytes[2] as int + 0x100 * bytes[3] as int)
  {
    assert s[i + 0] == bytes[0] && s[i + 1] == bytes[1] && s[i + 2] == bytes[2] && s[i + 3] == bytes[3];
    FieldOfBytes(s, i);
    FieldOfBytes(s, i + 2);
  }

  /** The premise on junk is needed: a stray first header byte swallows the first byte of the packet
      behind it, whatever that packet is. */
  lemma StrayHeaderByte(m: Machine, packet: seq<Byte>, rest: seq<Byte>)
    requires Faithful(m) && m.state == FirstByte && IsPacket(packet)
    ensures Run(m, [HEADER_LSB] + (packet + rest))
            == Run(m.(posts := m.posts + [[HEADER_LSB, HEADER_LSB]]), packet[1..] + rest)
  {
    var m1 := m.(state := SecondByte, filled := [HEADER_LSB]);
    assert m.filled + [HEADER_LSB] == [HEADER_LSB];
    assert packet + rest == packet[..1] + (packet[1..] + rest);
    assert [HEADER_LSB] + packet[..1] == [HEADER_LSB, HEADER_LSB];
    RunStep(m, m1, [], [HEADER_LSB], packet + rest);
    RunStep(m1, m.(posts := m.posts + [[HEADER_LSB, HEADER_LSB]]), [HEADER_LSB], packet[..1],
            packet[1..] + rest);
  }
}
