/**
 * The storage the caller gives the decoder for a packet's data.  The decoder puts every data byte behind those before
 * it, and never compares their number with the size of the storage: which streams stay inside, and which sizes do.
 */
module Storage {
  import opened Bytes
  import opened Stream
  import opened DecoderSpec
  import opened Wire
  import opened Demux

  /** If the next byte is data of the packet being filled, it has a place in storage of `capacity` bytes. */
  predicate HasRoom(s: PacketState, capacity: nat) {
    s.phase.Filling? && !s.Pending() ==> |s.phase.got| < capacity
  }

  /** Every data byte of `bs` has a place. */
  ghost predicate Fits(s: PacketState, bs: seq<Byte>, capacity: nat)
    decreases |bs|
  {
    bs == [] ||
    (HasRoom(s, capacity) && (PacketStep(s, bs[0]).Next? ==> Fits(PacketStep(s, bs[0]).state, bs[1..], capacity)))
  }

  /** Every data byte of the frames in `bs` has a place. */
  ghost predicate StreamFits(s: FrameState, bs: seq<Byte>, capacity: nat)
    decreases |bs|
  {
    bs == [] ||
    (&& (s.phase.SdramData? ==> HasRoom(s.packets, capacity))
     && (FrameStep(s, bs[0]).Next? ==> StreamFits(FrameStep(s, bs[0]).state, bs[1..], capacity)))
  }

  // ---------------------------------------------------------------- bytes after bytes

  lemma {:induction false} FitsConcat(s: PacketState, a: seq<Byte>, b: seq<Byte>, capacity: nat)
    ensures
      var o := Run(PacketStep, s, a);
      Fits(s, a + b, capacity) <==> Fits(s, a, capacity) && (o.Next? ==> Fits(o.state, b, capacity))
    decreases |a|
  {
    if a == [] {
      assert a + b == b;
    } else {
      assert (a + b)[0] == a[0] && (a + b)[1..] == a[1..] + b;
      var o := PacketStep(s, a[0]);
      if o.Next? { FitsConcat(o.state, a[1..], b, capacity); }
    }
  }

  lemma {:induction false} StreamFitsConcat(s: FrameState, a: seq<Byte>, b: seq<Byte>, capacity: nat)
    ensures
      var o := Run(FrameStep, s, a);
      StreamFits(s, a + b, capacity) <==> StreamFits(s, a, capacity) && (o.Next? ==> StreamFits(o.state, b, capacity))
    decreases |a|
  {
    if a == [] {
      assert a + b == b;
    } else {
      assert (a + b)[0] == a[0] && (a + b)[1..] == a[1..] + b;
      var o := FrameStep(s, a[0]);
      if o.Next? { StreamFitsConcat(o.state, a[1..], b, capacity); }
    }
  }

  /** Data bytes of one packet fit iff the storage holds as many. */
  lemma {:induction false} DataFits(h: Header, got: seq<Byte>, clock: U64, xs: seq<Byte>, capacity: nat)
    requires |got| + |xs| <= h.CapturedSize()
    ensures Fits(PacketState(Filling(h, got), clock), xs, capacity) <==> xs == [] || |got| + |xs| <= capacity
    decreases |xs|
  {
    if |xs| == 1 {
      assert xs[1..] == [];
    } else if |xs| > 1 {
      DataFits(h, got + [xs[0]], clock, xs[1..], capacity);
    }
  }

  /** The byte after an empty packet fits as it would when the packet had been finished. */
  lemma PendingFits(s: PacketState, bs: seq<Byte>, capacity: nat)
    requires s.Pending() && bs != []
    ensures Fits(s, bs, capacity) <==> Fits(s.Finish().0, bs, capacity)
  {
  }

  /** Inside an SDRAM frame the frame decoder stores what the packet decoder stores. */
  lemma {:induction false} SdramFits(required: nat, p: PacketState, xs: seq<Byte>, capacity: nat)
    requires 0 < required && |xs| <= required
    ensures StreamFits(FrameState(SdramData(required), p), xs, capacity) <==> Fits(p, xs, capacity)
    decreases |xs|
  {
    if xs != [] {
      var o := PacketStep(p, xs[0]);
      if o.Next? && |xs| > 1 {
        SdramFits(required - 1, o.state, xs[1..], capacity);
      }
    }
  }

  // ---------------------------------------------------------------- packets

  lemma {:induction false} FillersFit(clock: U64, n: nat, capacity: nat)
    ensures Fits(PacketState(Idle, clock), Fillers(n), capacity)
  {
    if n > 0 {
      FillersFit(clock, n - 1, capacity);
      assert Fillers(n)[1..] == Fillers(n - 1);
    }
  }

  /** A header stores no data. */
  lemma HeaderFits(w: WirePacket, clock: U64, capacity: nat)
    requires w.Valid()
    ensures Fits(PacketState(Idle, clock), EncodeHeader(w), capacity)
  {
    var s := PacketState(Idle, clock);
    var e := EncodeHeader(w);
    assert e[1..][1..] == e[2..] && e[2..][1..] == e[3..] && e[3..][1..] == [];
    assert Fits(s.(phase := GotLengthLo(e[0], e[1], e[2])), e[3..], capacity);
    assert Fits(s.(phase := GotFlags(e[0], e[1])), e[2..], capacity);
    assert Fits(s.(phase := GotMagic(e[0])), e[1..], capacity);
  }

  /** Nor does a delta. */
  lemma {:induction false} DeltaFits(s: PacketState, xs: seq<Byte>, capacity: nat)
    requires s.phase.Stamping? && s.phase.read + |xs| <= s.phase.total
    ensures Fits(s, xs, capacity)
    decreases |xs|
  {
    if |xs| == 1 {
      assert xs[1..] == [];
    } else if |xs| > 1 {
      DeltaFits(PacketStep(s, xs[0]).state, xs[1..], capacity);
    }
  }

  /** A packet that has come up to the data `xs` fits iff the storage holds them. */
  lemma PreambleFits(w: WirePacket, clock: U64, xs: seq<Byte>, capacity: nat)
    requires w.Valid() && |xs| <= |w.data|
    ensures Fits(PacketState(Idle, clock), EncodeHeader(w) + w.delta + xs, capacity) <==> |xs| <= capacity
  {
    var idle := PacketState(Idle, clock);
    HeaderFits(w, clock, capacity);
    HeaderRun(w, clock);
    FitsConcat(idle, EncodeHeader(w), w.delta, capacity);
    DeltaFits(PacketState(Stamping(w.header, 0, |w.delta|, 0), clock), w.delta, capacity);
    PreambleRun(w, clock);
    FitsConcat(idle, EncodeHeader(w) + w.delta, xs, capacity);
    DataFits(w.header, [], Tick(clock, w), xs, capacity);
  }

  /** A packet fits iff the storage holds its captured data. */
  lemma EncodedFits(w: WirePacket, clock: U64, capacity: nat)
    requires w.Valid()
    ensures Fits(PacketState(Idle, clock), Encode(w), capacity) <==> |w.data| <= capacity
  {
    var idle := PacketState(Idle, clock);
    var packet := EncodeHeader(w) + w.delta + w.data;
    assert Encode(w) == Fillers(w.fillers) + packet;
    FillersFit(clock, w.fillers, capacity);
    FillersRun(clock, w.fillers);
    FitsConcat(idle, Fillers(w.fillers), packet, capacity);
    PreambleFits(w, clock, w.data, capacity);
  }

  /** Packets fit iff the storage holds the captured data of each of them. */
  lemma {:induction false} EncodedFitsIff(ws: seq<WirePacket>, n: nat, clock: U64, capacity: nat)
    requires AllValid(ws)
    ensures Fits(PacketState(Idle, clock), EncodeAll(ws) + Fillers(n), capacity)
       <==> forall i | 0 <= i < |ws| :: |ws[i].data| <= capacity
    decreases |ws|
  {
    if ws == [] {
      FillersFit(clock, n, capacity);
      assert EncodeAll(ws) + Fillers(n) == Fillers(n);
    } else {
      var w, rest := ws[0], EncodeAll(ws[1..]) + Fillers(n);
      assert EncodeAll(ws) + Fillers(n) == Encode(w) + rest;
      EncodedFits(w, clock, capacity);
      EncodedRun(w, clock);
      FitsConcat(PacketState(Idle, clock), Encode(w), rest, capacity);
      if w.data == [] && rest != [] {
        PendingFits(AfterPacket(clock, w).state, rest, capacity);
      }
      EncodedFitsIff(ws[1..], n, Tick(clock, w), capacity);
      assert forall i | 1 <= i < |ws| :: ws[i] == ws[1..][i - 1];
    }
  }

  // ---------------------------------------------------------------- frames

  lemma FrameFits(f: Frame, p: PacketState, capacity: nat)
    requires f.Valid()
    ensures StreamFits(FrameState(BetweenFrames, p), f.Serialise(), capacity)
       <==> (f.SdramFrame? ==> Fits(p, f.payload, capacity))
  {
    var s, bs := FrameState(BetweenFrames, p), f.Serialise();
    match f
    case BusFrame(addr, value, checksum) =>
      assert bs[1..][1..] == bs[2..] && bs[2..][1..] == bs[3..] && bs[3..][1..] == bs[4..] && bs[4..][1..] == [];
      assert StreamFits(s.(phase := BusChecksum(addr, value)), bs[4..], capacity);
      assert StreamFits(s.(phase := BusValue(addr)), bs[3..], capacity);
      assert StreamFits(s.(phase := BusAddrLo(addr / 0x100)), bs[2..], capacity);
      assert StreamFits(s.(phase := BusAddrHi), bs[1..], capacity);
    case SdramFrame(payload) =>
      assert bs[1..][1..] == payload;
      SdramFits(|payload|, p, payload, capacity);
  }

  /** Frames fit iff their joined payloads do. */
  lemma {:induction false} FramesFitIff(fs: seq<Frame>, p: PacketState, capacity: nat)
    requires AllFrames(fs)
    ensures StreamFits(FrameState(BetweenFrames, p), SerialiseAll(fs), capacity) <==> Fits(p, Payloads(fs), capacity)
    decreases |fs|
  {
    if fs != [] {
      var f := fs[0];
      FrameFits(f, p, capacity);
      FrameRun(f, p);
      StreamFitsConcat(FrameState(BetweenFrames, p), f.Serialise(), SerialiseAll(fs[1..]), capacity);
      if f.SdramFrame? {
        FitsConcat(p, f.payload, Payloads(fs[1..]), capacity);
      } else {
        assert Payloads(fs) == Payloads(fs[1..]);
      }
      if f.Decode(p).Next? {
        FramesFitIff(fs[1..], f.Decode(p).state, capacity);
      }
    }
  }

  // ---------------------------------------------------------------- sizes that are always enough

  /** A packet has at most 8191 data bytes: storage for as many is enough. */
  lemma {:induction false} AmpleFits(s: PacketState, bs: seq<Byte>, capacity: nat)
    requires s.Valid() && capacity >= MAX_CAPTURED_SIZE
    ensures Fits(s, bs, capacity)
    decreases |bs|
  {
    if bs != [] {
      PacketStepValid(s, bs[0]);
      var o := PacketStep(s, bs[0]);
      if o.Next? { AmpleFits(o.state, bs[1..], capacity); }
    }
  }

  lemma {:induction false} AmpleStreamFits(s: FrameState, bs: seq<Byte>, capacity: nat)
    requires s.Valid() && capacity >= MAX_CAPTURED_SIZE
    ensures StreamFits(s, bs, capacity)
    decreases |bs|
  {
    if bs != [] {
      PacketStepValid(s.packets, bs[0]);
      var o := FrameStep(s, bs[0]);
      if o.Next? { AmpleStreamFits(o.state, bs[1..], capacity); }
    }
  }

  function Zeros(n: nat): (r: seq<Byte>)
    ensures |r| == n
  {
    seq(n, _ => 0)
  }

  /** A packet of the largest size. */
  const LARGEST := WirePacket(0, Header(0xa0, 0, MAX_CAPTURED_SIZE), [0], Zeros(MAX_CAPTURED_SIZE))

  lemma LargestValid()
    ensures LARGEST.Valid() && |LARGEST.data| == MAX_CAPTURED_SIZE
  {
    assert !HasFlag(0, FLAG_TRUNC);
  }

  /** No stream overruns the storage iff it has 8191 bytes. */
  lemma AlwaysFitsIff(capacity: nat)
    ensures (forall bs :: Fits(INITIAL_PACKETS, bs, capacity)) <==> capacity >= 8191
  {
    if capacity >= MAX_CAPTURED_SIZE {
      forall bs
        ensures Fits(INITIAL_PACKETS, bs, capacity)
      {
        AmpleFits(INITIAL_PACKETS, bs, capacity);
      }
    } else {
      LargestValid();
      EncodedFits(LARGEST, 0, capacity);
      assert !Fits(INITIAL_PACKETS, Encode(LARGEST), capacity);
    }
  }

  /** Bytes of even number as the payload of SDRAM frames. */
  lemma {:induction false} Framing(bs: seq<Byte>) returns (fs: seq<Frame>)
    requires |bs| % 2 == 0
    ensures AllFrames(fs) && Payloads(fs) == bs
    ensures forall i | 0 <= i < |fs| :: fs[i].SdramFrame?
  {
    if bs == [] {
      fs := [];
    } else {
      var rest := Framing(bs[2..]);
      fs := [SdramFrame(bs[..2])] + rest;
      assert fs[1..] == rest && bs == bs[..2] + bs[2..];
    }
  }

  /** The same of a capture from its start. */
  lemma CaptureFitsIff(capacity: nat)
    ensures (forall bs :: StreamFits(INITIAL_STATE, bs, capacity)) <==> capacity >= 8191
  {
    if capacity >= MAX_CAPTURED_SIZE {
      forall bs
        ensures StreamFits(INITIAL_STATE, bs, capacity)
      {
        AmpleStreamFits(INITIAL_STATE, bs, capacity);
      }
    } else {
      LargestValid();
      EncodedFits(LARGEST, 0, capacity);
      assert |Encode(LARGEST)| == 4 + 1 + MAX_CAPTURED_SIZE;
      var fs := Framing(Encode(LARGEST));
      FramesFitIff(fs, INITIAL_PACKETS, capacity);
      assert !StreamFits(INITIAL_STATE, SerialiseAll(fs), capacity);
    }
  }

  // ---------------------------------------------------------------- the storage of the tools

  /** The extcap tool gives 1024 bytes, of which the header of the packet takes 12. */
  const TOOL_STORAGE: nat := 1024 - 12

  /** A truncated packet keeps 1027 bytes: any such packet overruns that storage, however its frames are cut. */
  lemma TruncOverruns(w: WirePacket, fs: seq<Frame>)
    requires w.Valid() && HasFlag(w.header.flags, FLAG_TRUNC)
    requires AllFrames(fs) && Payloads(fs) == Encode(w)
    ensures !StreamFits(INITIAL_STATE, SerialiseAll(fs), TOOL_STORAGE)
  {
    EncodedFits(w, 0, TOOL_STORAGE);
    FramesFitIff(fs, INITIAL_PACKETS, TOOL_STORAGE);
  }

  /** The preamble of a packet with the flag TRUNC: what follows are 1027 bytes of data. */
  lemma TruncPreamble(w: WirePacket)
    requires w.header == Header(0xa0, 0x08, 5) && w.delta == [0] && |w.data| == MAX_PACKET_SIZE
    ensures w.Valid() && EncodeHeader(w) + w.delta == [0xa0, 0x08, 0x05, 0x00, 0x00]
  {
    assert HasFlag(0x08, FLAG_TRUNC);
    assert EncodeHeader(w) == [0xa0, 0x08, 0x05, 0x00];
  }

  /** The data of that packet overrun the tool's storage at their 1013th byte. */
  lemma TruncOverrunsAt(data: seq<Byte>)
    requires |data| <= MAX_PACKET_SIZE
    ensures Fits(INITIAL_PACKETS, [0xa0, 0x08, 0x05, 0x00, 0x00] + data, TOOL_STORAGE) <==> |data| < 1013
  {
    var w := WirePacket(0, Header(0xa0, 0x08, 5), [0], Zeros(MAX_PACKET_SIZE));
    TruncPreamble(w);
    PreambleFits(w, 0, data, TOOL_STORAGE);
  }
}
