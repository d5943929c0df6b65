/**
 * Demultiplexing: SDRAM frames and bus frames interleave on the wire, and packets straddle SDRAM frames.
 */
module Demux {
  import opened Bytes
  import opened Stream
  import opened DecoderSpec
  import opened Wire

  datatype Frame = BusFrame(addr: U16, value: Byte, checksum: Byte) | SdramFrame(payload: seq<Byte>)
  {
    predicate Valid() {
      SdramFrame? ==> 2 <= |payload| <= 512 && |payload| % 2 == 0
    }

    function Serialise(): seq<Byte>
      requires Valid()
    {
      match this
      case BusFrame(addr, value, checksum) => [0x55, addr / 0x100, addr % 0x100, value, checksum]
      case SdramFrame(payload) => [0xd0, |payload| / 2 - 1] + payload
    }

    /** What the frame calls, and leaves of the packet decoder. */
    function Decode(p: PacketState): PacketOutcome {
      match this
      case BusFrame(addr, value, _) => Next(p, [BusCall(addr, value)])
      case SdramFrame(payload) => Run(PacketStep, p, payload)
    }
  }

  ghost predicate AllFrames(fs: seq<Frame>) {
    forall i | 0 <= i < |fs| :: fs[i].Valid()
  }

  function SerialiseAll(fs: seq<Frame>): seq<Byte>
    requires AllFrames(fs)
  {
    if fs == [] then [] else fs[0].Serialise() + SerialiseAll(fs[1..])
  }

  /** Frame by frame, each SDRAM payload decoded as a whole. */
  function DecodeAll(fs: seq<Frame>, p: PacketState): PacketOutcome
    decreases |fs|
  {
    if fs == [] then Next(p, [])
    else
      match fs[0].Decode(p)
      case Reject(q, e) => Reject(q, e)
      case Next(q, e) => DecodeAll(fs[1..], q).After(e)
  }

  /** The payloads of the SDRAM frames, joined. */
  function Payloads(fs: seq<Frame>): seq<Byte> {
    if fs == [] then []
    else (if fs[0].SdramFrame? then fs[0].payload else []) + Payloads(fs[1..])
  }

  function BusCalls(fs: seq<Frame>): seq<Call> {
    if fs == [] then []
    else (if fs[0].BusFrame? then [BusCall(fs[0].addr, fs[0].value)] else []) + BusCalls(fs[1..])
  }

  /** The calls of one kind, in order. */
  function CallsOf(packets: bool, calls: seq<Call>): seq<Call> {
    if calls == [] then []
    else (if calls[0].PacketCall? == packets then [calls[0]] else []) + CallsOf(packets, calls[1..])
  }

  function PacketCallsOf(calls: seq<Call>): seq<Call> { CallsOf(true, calls) }
  function BusCallsOf(calls: seq<Call>): seq<Call> { CallsOf(false, calls) }

  lemma {:induction false} CallsOfConcat(packets: bool, a: seq<Call>, b: seq<Call>)
    ensures CallsOf(packets, a + b) == CallsOf(packets, a) + CallsOf(packets, b)
  {
    if a == [] {
      assert a + b == b;
    } else {
      assert (a + b)[1..] == a[1..] + b;
      CallsOfConcat(packets, a[1..], b);
    }
  }

  lemma BothCallsOfConcat(a: seq<Call>, b: seq<Call>)
    ensures PacketCallsOf(a + b) == PacketCallsOf(a) + PacketCallsOf(b)
    ensures BusCallsOf(a + b) == BusCallsOf(a) + BusCallsOf(b)
  {
    CallsOfConcat(true, a, b);
    CallsOfConcat(false, a, b);
  }

  lemma OneCall(c: Call)
    ensures PacketCallsOf([c]) == (if c.PacketCall? then [c] else [])
    ensures BusCallsOf([c]) == (if c.PacketCall? then [] else [c])
  {
    assert [c][1..] == [];
    assert CallsOf(true, [c]) == (if c.PacketCall? then [c] else []) + CallsOf(true, [c][1..]);
    assert CallsOf(false, [c]) == (if c.PacketCall? then [] else [c]) + CallsOf(false, [c][1..]);
  }

  /** The packet decoder makes packet callbacks only. */
  lemma {:induction false} PacketCallsOnly(p: PacketState, bs: seq<Byte>)
    ensures PacketCallsOf(Run(PacketStep, p, bs).calls) == Run(PacketStep, p, bs).calls
    ensures BusCallsOf(Run(PacketStep, p, bs).calls) == []
    decreases |bs|
  {
    if bs != [] {
      var o := PacketStep(p, bs[0]);
      assert o.calls == [] || (o.calls == [o.calls[0]] && o.calls[0].PacketCall?);
      if o.calls != [] { OneCall(o.calls[0]); }
      if o.Next? {
        PacketCallsOnly(o.state, bs[1..]);
        BothCallsOfConcat(o.calls, Run(PacketStep, o.state, bs[1..]).calls);
      }
    }
  }

  // ---------------------------------------------------------------- decoding what was serialised

  lemma BusFrameRun(p: PacketState, addr: U16, value: Byte, checksum: Byte)
    ensures Run(FrameStep, FrameState(BetweenFrames, p), BusFrame(addr, value, checksum).Serialise())
         == Next(FrameState(BetweenFrames, p), [BusCall(addr, value)])
  {
    var bs := BusFrame(addr, value, checksum).Serialise();
    var s := FrameState(BetweenFrames, p);
    var hi, lo := addr / 0x100, addr % 0x100;
    assert bs[1..] == [hi, lo, value, checksum] && [hi, lo, value, checksum][1..] == [lo, value, checksum]
        && [lo, value, checksum][1..] == [value, checksum] && [value, checksum][1..] == [checksum];
    RunOne(FrameStep, s.(phase := BusChecksum(addr, value)), checksum);
    assert Run(FrameStep, s.(phase := BusValue(addr)), [value, checksum]) == Next(s, [BusCall(addr, value)]);
    assert Run(FrameStep, s.(phase := BusAddrLo(hi)), [lo, value, checksum]) == Next(s, [BusCall(addr, value)]);
    assert Run(FrameStep, s.(phase := BusAddrHi), [hi, lo, value, checksum]) == Next(s, [BusCall(addr, value)]);
  }

  lemma SdramHeaderRun(p: PacketState, b: Byte)
    ensures Run(FrameStep, FrameState(BetweenFrames, p), [SDRAM_FRAME_MAGIC, b])
         == Next(FrameState(SdramData(SdramSize(b)), p), [])
  {
    var s := FrameState(BetweenFrames, p);
    assert [SDRAM_FRAME_MAGIC, b][1..] == [b];
    RunOne(FrameStep, s.(phase := SdramLength), b);
  }

  /** One frame: the same callbacks, and the decoder is between frames again unless it rejected. */
  lemma FrameRun(f: Frame, p: PacketState)
    requires f.Valid()
    ensures
      var o := Run(FrameStep, FrameState(BetweenFrames, p), f.Serialise());
      var d := f.Decode(p);
      && o.calls == d.calls && o.state.packets == d.state && (o.Next? <==> d.Next?)
      && (o.Next? ==> o.state.phase == BetweenFrames)
  {
    match f
    case BusFrame(addr, value, checksum) => BusFrameRun(p, addr, value, checksum);
    case SdramFrame(payload) =>
      var header := [SDRAM_FRAME_MAGIC, |payload| / 2 - 1];
      SdramHeaderRun(p, |payload| / 2 - 1);
      var t := FrameState(SdramData(|payload|), p);
      RunOn(FrameStep, FrameState(BetweenFrames, p), header, t, payload);
      SdramRun(|payload|, p, payload);
  }

  /** Any list of frames: byte for byte, the decoder does what decoding frame by frame does. */
  lemma {:induction false} FramesRun(fs: seq<Frame>, p: PacketState)
    requires AllFrames(fs)
    ensures
      var o := Run(FrameStep, FrameState(BetweenFrames, p), SerialiseAll(fs));
      var d := DecodeAll(fs, p);
      && o.calls == d.calls && o.state.packets == d.state && (o.Next? <==> d.Next?)
      && (o.Next? ==> o.state.phase == BetweenFrames)
    decreases |fs|
  {
    if fs != [] {
      FrameRun(fs[0], p);
      RunConcat(FrameStep, FrameState(BetweenFrames, p), fs[0].Serialise(), SerialiseAll(fs[1..]));
      var d := fs[0].Decode(p);
      if d.Next? {
        FramesRun(fs[1..], d.state);
      }
    }
  }

  /**
   * The packet callbacks are those of the joined payloads, wherever frames cut them and whatever bus frames
   * come between; the bus callbacks are the bus frames in order, up to the frame that rejects.
   */
  lemma {:induction false} DecodeAllSplits(fs: seq<Frame>, p: PacketState)
    ensures
      var d := DecodeAll(fs, p);
      var o := Run(PacketStep, p, Payloads(fs));
      && PacketCallsOf(d.calls) == o.calls && d.state == o.state && (d.Next? <==> o.Next?)
      && BusCallsOf(d.calls) <= BusCalls(fs)
      && (d.Next? ==> BusCallsOf(d.calls) == BusCalls(fs))
    decreases |fs|
  {
    if fs != [] {
      var e := fs[0].Decode(p);
      match fs[0] {
        case BusFrame(addr, value, _) =>
          assert Payloads(fs) == Payloads(fs[1..]);
        case SdramFrame(payload) =>
          PacketCallsOnly(p, payload);
          RunConcat(PacketStep, p, payload, Payloads(fs[1..]));
      }
      if e.Next? {
        DecodeAllSplits(fs[1..], e.state);
        BothCallsOfConcat(e.calls, DecodeAll(fs[1..], e.state).calls);
      }
    }
  }

  /** The demultiplexing theorem, for frames cut into any chunks. */
  lemma Demultiplexing(fs: seq<Frame>, p: PacketState, chunks: seq<seq<Byte>>)
    requires AllFrames(fs) && Flatten(chunks) == SerialiseAll(fs)
    ensures
      var o := RunChunks(FrameStep, FrameState(BetweenFrames, p), chunks);
      var packets := Run(PacketStep, p, Payloads(fs));
      && PacketCallsOf(o.calls) == packets.calls
      && BusCallsOf(o.calls) <= BusCalls(fs)
      && (o.Next? <==> packets.Next?)
      && (o.Next? ==> o.state == FrameState(BetweenFrames, packets.state) && BusCallsOf(o.calls) == BusCalls(fs))
  {
    ChunkInvariance(FrameStep, FrameState(BetweenFrames, p), chunks);
    FramesRun(fs, p);
    DecodeAllSplits(fs, p);
  }

  /**
   * End to end: packets encoded, spread over SDRAM frames among bus frames, cut anywhere, are delivered as they were.
   */
  lemma CaptureRoundTrip(ws: seq<WirePacket>, n: nat, fs: seq<Frame>, chunks: seq<seq<Byte>>)
    requires AllValid(ws) && Flushes(ws, n)
    requires AllFrames(fs) && Payloads(fs) == EncodeAll(ws) + Fillers(n)
    requires Flatten(chunks) == SerialiseAll(fs)
    ensures
      var o := RunChunks(FrameStep, INITIAL_STATE, chunks);
      && o.Next? && o.state == FrameState(BetweenFrames, PacketState(Idle, SumOfDeltas(ws) % TWO_64))
      && PacketCallsOf(o.calls) == Deliver(0, ws)
      && BusCallsOf(o.calls) == BusCalls(fs)
  {
    Demultiplexing(fs, INITIAL_PACKETS, chunks);
    RoundTrip(ws, n, 0);
    ClockIsSum(0, ws);
  }

  // ---------------------------------------------------------------- only what was serialised is decoded

  /** A run that ends between frames starts with a whole frame. */
  lemma TakeFrame(p: PacketState, bs: seq<Byte>) returns (f: Frame, rest: seq<Byte>)
    requires bs != []
    requires Run(FrameStep, FrameState(BetweenFrames, p), bs).Next?
    requires Run(FrameStep, FrameState(BetweenFrames, p), bs).state.phase.BetweenFrames?
    ensures f.Valid() && bs == f.Serialise() + rest
  {
    var s := FrameState(BetweenFrames, p);
    if bs[0] == BUS_FRAME_MAGIC {
      if |bs| < 5 {
        ShortBusFrame(s, bs);
        assert false;
      }
      f, rest := BusFrame(AddrOf(bs[1], bs[2]), bs[3], bs[4]), bs[5..];
      assert f.Serialise() == bs[..5];
    } else {
      assert bs[0] == SDRAM_FRAME_MAGIC;
      if |bs| == 1 {
        assert false;
      }
      SdramHeaderRun(p, bs[1]);
      var n := SdramSize(bs[1]);
      var u := bs[2..];
      assert bs == [SDRAM_FRAME_MAGIC, bs[1]] + u;
      RunOn(FrameStep, s, [SDRAM_FRAME_MAGIC, bs[1]], FrameState(SdramData(n), p), u);
      if |u| < n {
        SdramRun(n, p, u);
        assert false;
      }
      f, rest := SdramFrame(u[..n]), u[n..];
      assert f.Serialise() == [SDRAM_FRAME_MAGIC, bs[1]] + u[..n];
    }
  }

  lemma ShortBusFrame(s: FrameState, bs: seq<Byte>)
    requires s.phase.BetweenFrames? && 1 <= |bs| <= 4 && bs[0] == BUS_FRAME_MAGIC
    ensures !Run(FrameStep, s, bs).state.phase.BetweenFrames?
  {
    var s1 := s.(phase := BusAddrHi);
    assert Run(FrameStep, s, bs).state == Run(FrameStep, s1, bs[1..]).state;
    if |bs| > 1 {
      var s2 := s.(phase := BusAddrLo(bs[1]));
      assert bs[1..][1..] == bs[2..];
      assert Run(FrameStep, s1, bs[1..]).state == Run(FrameStep, s2, bs[2..]).state;
      if |bs| > 2 {
        var s3 := s.(phase := BusValue(AddrOf(bs[1], bs[2])));
        assert bs[2..][1..] == bs[3..];
        assert Run(FrameStep, s2, bs[2..]).state == Run(FrameStep, s3, bs[3..]).state;
        if |bs| > 3 {
          assert bs[3..] == [bs[3]];
          RunOne(FrameStep, s3, bs[3]);
        }
      }
    }
  }

  lemma {:induction false} Unserialise(p: PacketState, bs: seq<Byte>) returns (fs: seq<Frame>)
    requires Run(FrameStep, FrameState(BetweenFrames, p), bs).Next?
    requires Run(FrameStep, FrameState(BetweenFrames, p), bs).state.phase.BetweenFrames?
    ensures AllFrames(fs) && bs == SerialiseAll(fs)
    decreases |bs|
  {
    if bs == [] {
      fs := [];
    } else {
      var f, rest := TakeFrame(p, bs);
      FrameRun(f, p);
      RunConcat(FrameStep, FrameState(BetweenFrames, p), f.Serialise(), rest);
      var fs' := Unserialise(f.Decode(p).state, rest);
      fs := [f] + fs';
      assert fs[1..] == fs';
    }
  }

  /** The accepted streams that end between frames are exactly the serialised frames with a decodable payload. */
  lemma FramingIsInverse(p: PacketState, bs: seq<Byte>)
    ensures Run(FrameStep, FrameState(BetweenFrames, p), bs).Next?
         && Run(FrameStep, FrameState(BetweenFrames, p), bs).state.phase.BetweenFrames?
       <==> exists fs :: AllFrames(fs) && bs == SerialiseAll(fs) && Run(PacketStep, p, Payloads(fs)).Next?
  {
    var o := Run(FrameStep, FrameState(BetweenFrames, p), bs);
    if o.Next? && o.state.phase.BetweenFrames? {
      var fs := Unserialise(p, bs);
      FramesRun(fs, p);
      DecodeAllSplits(fs, p);
      assert AllFrames(fs) && bs == SerialiseAll(fs) && Run(PacketStep, p, Payloads(fs)).Next?;
    }
    if fs :| AllFrames(fs) && bs == SerialiseAll(fs) && Run(PacketStep, p, Payloads(fs)).Next? {
      FramesRun(fs, p);
      DecodeAllSplits(fs, p);
    }
  }
}
