/** The receiver of the Oculus sonar's data stream: a buffer shared with the clients of its callbacks,
    and the handlers that the completed reads call. */
module DataRx {
  import opened Encodings
  import opened OculusFraming

  /** The vector that the receiver and its clients hold through shared pointers. */
  class ByteVector {
    var data: seq<Byte>

    constructor ()
      ensures data == []
    {
      data := [];
    }

    /** New elements are zero. */
    method Resize(n: nat)
      modifies this
      ensures |data| == n
      ensures n >= |old(data)| ==> data[..|old(data)|] == old(data)
      ensures n <= |old(data)| ==> data == old(data)[..n]
    {
      if n <= |data| {
        data := data[..n];
      } else {
        data := data + seq(n - |data|, _ => 0);
      }
    }

    /** The transport writes a completed read behind the first `start` bytes. */
    method Fill(start: nat, chunk: seq<Byte>)
      requires start + |chunk| == |data|
      modifies this
      ensures data == old(data)[..start] + chunk
    {
      data := data[..start] + chunk;
    }
  }

  class Receiver {
    var buffer: ByteVector
    var state: State
    var pending: nat                          // the bytes that the read in progress still asks for
    var posts: seq<seq<Byte>>                 // given to haveRead
    var pings: seq<Ping>                      // given to the ping callbacks
    var retained: map<ByteVector, seq<Byte>>  // buffers a callback kept, as it saw them

    /** The bytes received in this cycle. */
    function Filled(): seq<Byte>
      reads this, buffer
    {
      if pending <= |buffer.data| then buffer.data[..|buffer.data| - pending] else []
    }

    function Abstract(): Machine
      reads this, buffer
    {
      Machine(state, Filled(), posts, pings)
    }

    /** What the clients hold is what they were given. */
    ghost predicate Intact()
      reads this, retained.Keys
    {
      forall b | b in retained :: b.data == retained[b]
    }

    /** No client holds the buffer that is being read into. */
    ghost predicate Valid()
      reads this, buffer, retained.Keys
    {
      && buffer !in retained && Intact()
      && Ok(Abstract())
      && pending == Wanted(Abstract()) <= |buffer.data|
    }

    constructor ()
      ensures Valid() && Abstract() == START && retained == map[] && fresh(buffer)
    {
      state, pending, posts, pings, retained := FirstByte, 0, [], [], map[];
      buffer := new ByteVector();
      new;
      RestartReceiveCycle(0);
    }

    /** Asks for as many bytes as the buffer is short of a total, and leaves the rest to a handler. */
    method ReadUpTo(bytes: nat, next: State)
      modifies this`state, this`pending, buffer
      ensures state == next && |buffer.data| == bytes && pending <= |buffer.data|
      ensures pending == if bytes >= |old(buffer.data)| then bytes - |old(buffer.data)| else 0
      ensures Filled() == if bytes >= |old(buffer.data)| then old(buffer.data) else old(buffer.data)[..bytes]
    {
      var current := |buffer.data|;
      buffer.Resize(bytes);
      pending := if bytes >= current then bytes - current else 0;
      state := next;
    }

    /** The shared pointers to the buffer: the receiver's own, those of a handler's local headers, and
        a client's. */
    function UseCount(locals: nat): nat
      reads this
    {
      1 + locals + if buffer in retained then 1 else 0
    }

    /** A buffer that anyone else still points to is left alone and replaced. */
    method RestartReceiveCycle(locals: nat)
      requires Intact()
      modifies this`buffer, this`state, this`pending, this`posts, buffer
      ensures Valid() && (fresh(buffer) || (buffer == old(buffer) && old(buffer !in retained)))
      ensures old(buffer) in retained ==> old(buffer).data == old(buffer.data)
      ensures Abstract() == Restart(Machine(state, [], old(posts), pings), old(buffer.data))
    {
      if |buffer.data| > 0 {
        posts := posts + [buffer.data];
      }
      if UseCount(locals) > 1 {
        buffer := new ByteVector();
      } else {
        buffer.Resize(0);
      }
      ReadUpTo(1, FirstByte);
    }

    method RxFirstByte(transferred: nat)
      requires Intact() && buffer !in retained && |buffer.data| == transferred == 1
      modifies this`buffer, this`state, this`pending, this`posts, buffer
      ensures Valid() && (buffer == old(buffer) || fresh(buffer))
      ensures Abstract() == if old(buffer.data)[0] == HEADER_LSB
                            then Machine(SecondByte, old(buffer.data), old(posts), pings)
                            else Restart(Machine(state, [], old(posts), pings), old(buffer.data))
    {
      if transferred == 1 && buffer.data[0] == HEADER_LSB {
        ReadUpTo(2, SecondByte);
        return;
      }
      RestartReceiveCycle(0);
    }

    method RxSecondByte(transferred: nat)
      requires Intact() && buffer !in retained && |buffer.data| == 2 && buffer.data[0] == HEADER_LSB
      requires transferred == 1
      modifies this`buffer, this`state, this`pending, this`posts, buffer
      ensures Valid() && (buffer == old(buffer) || fresh(buffer))
      ensures Abstract() == if old(buffer.data)[1] == HEADER_MSB
                            then Machine(Header, old(buffer.data), old(posts), pings)
                            else Restart(Machine(state, [], old(posts), pings), old(buffer.data))
    {
      if transferred == 1 && buffer.data[1] == HEADER_MSB {
        ReadUpTo(HEADER_SIZE, Header);
        return;
      }
      RestartReceiveCycle(0);
    }

    /** The local header object holds the buffer while the cycle is restarted. */
    method RxHeader()
      requires Intact() && buffer !in retained && |buffer.data| == HEADER_SIZE
      modifies this`buffer, this`state, this`pending, this`posts, buffer
      ensures Valid() && (buffer == old(buffer) || fresh(buffer))
      ensures var all, size := old(buffer.data), PacketSize(old(buffer.data));
              Abstract() == if Identified(all)
                            then Machine(Packet, if size < HEADER_SIZE then all[..size] else all, old(posts), pings)
                            else Restart(Machine(state, [], old(posts), pings), all)
    {
      if !Identified(buffer.data) {
        RestartReceiveCycle(1);
        return;
      }
      ReadUpTo(PacketSize(buffer.data), Packet);
    }

    /** A client gets the buffer itself, and may keep it. */
    method Callback(layout: Layout, keep: bool)
      requires Intact()
      modifies this`pings, this`retained
      ensures Intact() && pings == old(pings) + [Ping(layout, buffer.data)]
      ensures retained == if keep then old(retained)[buffer := buffer.data] else old(retained)
    {
      pings := pings + [Ping(layout, buffer.data)];
      if keep {
        retained := retained[buffer := buffer.data];
      }
    }

    /** Copies the gain at the start of each row, as long as they are in the buffer.  Reading past it ends
        the process. */
    method CopyGains(layout: Layout) returns (gains: seq<nat>, alive: bool)
      requires |buffer.data| >= PingSize(layout) && SendsGain(buffer.data)
      ensures alive <==> GainsInside(layout, buffer.data)
      ensures alive ==> |gains| == Le16(buffer.data, RangesAt(layout))
      ensures forall row | 0 <= row < |gains| ::
                GainInside(layout, buffer.data, row) && gains[row] == Gain(layout, buffer.data, row)
    {
      var image, stride := Le32(buffer.data, ImageOffsetAt(layout)), Stride(layout, buffer.data);
      var rows := Le16(buffer.data, RangesAt(layout));
      EveryGainInside(layout, buffer.data);
      gains := [];
      while |gains| < rows
        invariant |gains| <= rows
        invariant forall row | 0 <= row < |gains| ::
                    GainInside(layout, buffer.data, row) && gains[row] == Gain(layout, buffer.data, row)
      {
        var at := image + GainAt(|gains|, stride);
        if at + 4 > |buffer.data| {
          assert !GainInside(layout, buffer.data, |gains|);
          return gains, false;
        }
        gains := gains + [Le32(buffer.data, at)];
      }
      return gains, true;
    }

    /** The constructor of a ping: its assertions, and the overlays that copy. */
    method OverlayPing(layout: Layout) returns (gains: seq<nat>, alive: bool)
      requires |buffer.data| >= HEADER_SIZE
      ensures alive <==> |buffer.data| >= PingSize(layout) && GainsInside(layout, buffer.data)
      ensures alive && SendsGain(buffer.data) ==> |gains| == Le16(buffer.data, RangesAt(layout))
      ensures alive && !SendsGain(buffer.data) ==> gains == []
      ensures alive ==> forall row | 0 <= row < |gains| ::
                GainInside(layout, buffer.data, row) && gains[row] == Gain(layout, buffer.data, row)
    {
      var fireSize := if layout == V1 then 53 else 89;
      if |buffer.data| < fireSize || |buffer.data| < PingSize(layout) {
        return [], false;
      }
      if !SendsGain(buffer.data) {
        return [], true;
      }
      gains, alive := CopyGains(layout);
    }

    /** Overlays a ping structure on the buffer: the constructor, then the validity test with its own fatal
        check. */
    method CheckPing(layout: Layout) returns (valid: bool, alive: bool)
      requires |buffer.data| >= HEADER_SIZE && IsPacket(buffer.data) && LayoutOf(buffer.data) == Some(layout)
      ensures alive <==> Judge(buffer.data) != Fatal
      ensures valid <==> Judge(buffer.data) == Delivered(layout)
    {
      var gains;
      gains, alive := OverlayPing(layout);
      if !alive {
        return false, false;
      }
      var complete := |buffer.data| >= PacketSize(buffer.data) && Identified(buffer.data);
      if !complete || Le32(buffer.data, ImageOffsetAt(layout) + 4) != ExpectedImageSize(layout, buffer.data) {
        return false, true;
      }
      if Le32(buffer.data, ImageOffsetAt(layout)) <= PingSize(V1) {
        return false, false;
      }
      return true, true;
    }

    /** The branch of the packet handler for a ping of one layout. */
    method ReceivePing(layout: Layout, transferred: nat, keep: bool) returns (alive: bool)
      requires Intact() && IsPacket(buffer.data) && LayoutOf(buffer.data) == Some(layout)
      requires transferred == Payload(buffer.data)
      modifies this`pings, this`retained
      ensures Intact() && (alive <==> Judge(buffer.data) != Fatal)
      ensures pings == old(pings) + match PingOf(buffer.data) { case None => [] case Some(p) => [p] }
      ensures retained == if keep && PingOf(buffer.data).Some? then old(retained)[buffer := buffer.data]
                          else old(retained)
    {
      var valid;
      valid, alive := CheckPing(layout);
      if valid && transferred >= Payload(buffer.data) {
        Callback(layout, keep);
      }
    }

    /** Overlaying a header on fewer bytes than it has fails an assertion too. */
    method RxPacket(transferred: nat, keep: bool)
      requires Intact() && buffer !in retained && pending == 0
      requires |buffer.data| >= HEADER_SIZE ==> IsPacket(buffer.data) && transferred == Payload(buffer.data)
      modifies this, buffer
      ensures Valid() && (buffer == old(buffer) || fresh(buffer))
      ensures old(|buffer.data|) < HEADER_SIZE || Judge(old(buffer.data)) == Fatal ==>
                Abstract() == Machine(Stopped, old(buffer.data), old(posts), old(pings))
      ensures old(|buffer.data|) >= HEADER_SIZE && Judge(old(buffer.data)) != Fatal ==>
                var all, p := old(buffer.data), PingOf(old(buffer.data));
                Abstract() == Machine(FirstByte, [], old(posts) + [all],
                                      old(pings) + if p.Some? then [p.value] else [])
      ensures retained == if keep && pings != old(pings) then old(retained)[old(buffer) := old(buffer.data)]
                          else old(retained)
    {
      if |buffer.data| < HEADER_SIZE {
        state := Stopped;
        return;
      }
      var alive := true;
      if transferred >= Payload(buffer.data) && Le16(buffer.data, 6) == SIMPLE_PING_RESULT {
        var version := Le16(buffer.data, 8);
        if version == 1 || version == 0 {
          alive := ReceivePing(V1, transferred, keep);
        } else if version == 2 {
          alive := ReceivePing(V2, transferred, keep);
        }
      }
      if !alive {
        state := Stopped;
        return;
      }
      RestartReceiveCycle(1);
    }

    /** The transport completes the read in progress and calls its handler.  A buffer that a callback
        kept is never written again. */
    method Complete(chunk: seq<Byte>, keep: bool)
      requires Valid() && state != Stopped && |chunk| == pending
      modifies this, buffer
      ensures Valid() && Abstract() == Advance(old(Abstract()), chunk)
      ensures buffer == old(buffer) || fresh(buffer)
      ensures forall b | b in old(retained) :: b in retained && retained[b] == old(retained)[b]
    {
      ghost var m := Abstract();
      assert buffer.data[..|buffer.data| - pending] == m.filled;
      FitsHeader(m, chunk);
      buffer.Fill(|buffer.data| - pending, chunk);
      pending := 0;
      assert buffer.data == m.filled + chunk;
      match state {
        case FirstByte => RxFirstByte(|chunk|);
        case SecondByte => RxSecondByte(|chunk|);
        case Header => RxHeader();
        case Packet => RxPacket(|chunk|, keep);
      }
    }

    /** The next read of an input, as the machine's run sees it. */
    method ReceiveOne(input: seq<Byte>, keep: bool) returns (rest: seq<Byte>)
      requires Valid() && state != Stopped && |input| >= pending
      modifies this, buffer
      ensures Valid() && (buffer == old(buffer) || fresh(buffer))
      ensures rest == input[old(pending)..] && Run(Abstract(), rest) == Run(old(Abstract()), input)
      ensures old(pending) == 0 ==> old(state) == Packet && state != Packet
      ensures forall b | b in old(retained) :: b in retained && retained[b] == old(retained)[b]
    {
      ghost var m := Abstract();
      var chunk := input[..pending];
      rest := input[pending..];
      Complete(chunk, keep);
      RunUnfolds(m, input, chunk, rest, Abstract());
    }

    /** Everything the transport delivers, read by read; `keeps` decides for each read whether a client
        would keep the buffer.  Returns the bytes of the read that is still in progress. */
    method Receive(input: seq<Byte>, keeps: nat -> bool) returns (rest: seq<Byte>)
      requires Valid()
      modifies this, buffer
      ensures Valid() && (Abstract(), rest) == Run(old(Abstract()), input)
      ensures forall b | b in old(retained) :: b in retained && b.data == old(b.data)
    {
      rest := input;
      var i := 0;
      ghost var first, end := buffer, Run(Abstract(), input);
      while state != Stopped && |rest| >= pending
        invariant Valid() && (buffer == first || fresh(buffer))
        invariant Run(Abstract(), rest) == end
        invariant forall b | b in old(retained) :: b in retained && retained[b] == old(retained)[b]
        decreases |rest|, if state == Packet then 1 else 0
      {
        rest := ReceiveOne(rest, keeps(i));
        i := i + 1;
      }
      RunEnds(Abstract(), rest);
    }
  }

  lemma RunUnfolds(m: Machine, input: seq<Byte>, chunk: seq<Byte>, rest: seq<Byte>, next: Machine)
    requires Ok(m) && m.state != Stopped && |input| >= |chunk| == Wanted(m)
    requires chunk == input[..|chunk|] && rest == input[|chunk|..] && next == Advance(m, chunk)
    ensures Run(m, input) == Run(next, rest)
    ensures |chunk| == 0 ==> m.state == Packet && next.state != Packet
  {
  }

  lemma RunEnds(m: Machine, input: seq<Byte>)
    requires Ok(m) && (m.state == Stopped || |input| < Wanted(m))
    ensures Run(m, input) == (m, input)
  {
  }

  /** What a completed read leaves in the buffer is what its handler expects. */
  lemma FitsHeader(m: Machine, chunk: seq<Byte>)
    requires Ok(m) && m.state != Stopped && |chunk| == Wanted(m)
    ensures m.state == SecondByte ==> (m.filled + chunk)[0] == HEADER_LSB
    ensures m.state == Header ==> Identified(m.filled + chunk)
    ensures m.state == Packet && |m.filled| < HEADER_SIZE ==> |m.filled + chunk| < HEADER_SIZE
    ensures m.state == Packet && |m.filled| >= HEADER_SIZE ==>
              IsPacket(m.filled + chunk) && |chunk| == Payload(m.filled + chunk)
  {
    if m.state == Packet && |m.filled| == HEADER_SIZE {
      HeaderStays(m.filled, chunk);
    }
  }
}
