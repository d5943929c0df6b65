/**
 * The wire formats the decoders read, as encoders, and the proof that decoding is exactly their inverse.
 */
module Wire {
  import opened Bytes
  import opened Stream
  import opened DecoderSpec

  // ---------------------------------------------------------------- packets

  /**
   * A packet on the wire: fillers before it, the header, 1 to 8 bytes of delta timestamp, the captured data, of which
   * there are 1027 if the flag TRUNC is set.  The numbers of the format are written out, so that the encoder owes the
   * decoder nothing.
   */
  datatype WirePacket = WirePacket(fillers: nat, header: Header, delta: seq<Byte>, data: seq<Byte>)
  {
    predicate Valid() {
      && (header.magic == 0xa0 || header.magic == 0xa2)
      && header.size <= 0x1fff
      && 1 <= |delta| <= 8
      && |data| == if header.flags / 0x08 % 2 == 1 then 1027 else header.size
    }
  }

  function Fillers(n: nat): (f: seq<Byte>)
    ensures |f| == n
  {
    if n == 0 then [] else [0xa1] + Fillers(n - 1)
  }

  /** The 13-bit size is split over two bytes; the top three bits of the second hold the delta length less one. */
  function EncodeHeader(w: WirePacket): seq<Byte>
    requires w.Valid()
  {
    [w.header.magic, w.header.flags, w.header.size % 0x100, (|w.delta| - 1) * 0x20 + w.header.size / 0x100]
  }

  function Encode(w: WirePacket): seq<Byte>
    requires w.Valid()
  {
    Fillers(w.fillers) + (EncodeHeader(w) + (w.delta + w.data))
  }

  ghost predicate AllValid(ws: seq<WirePacket>) {
    forall i | 0 <= i < |ws| :: ws[i].Valid()
  }

  function EncodeAll(ws: seq<WirePacket>): seq<Byte>
    requires AllValid(ws)
  {
    if ws == [] then [] else Encode(ws[0]) + EncodeAll(ws[1..])
  }

  /** The timestamp clock after a delta. */
  function Advance(clock: U64, delta: seq<Byte>): U64 {
    (clock + LittleEndian(delta)) % 0x1_0000_0000_0000_0000
  }

  function Tick(clock: U64, w: WirePacket): U64 {
    Advance(clock, w.delta)
  }

  function ClockAfter(clock: U64, ws: seq<WirePacket>): U64
    decreases |ws|
  {
    if ws == [] then clock else ClockAfter(Tick(clock, ws[0]), ws[1..])
  }

  function Delivered(clock: U64, w: WirePacket): Call {
    PacketCall(Packet(w.header, Tick(clock, w), w.data))
  }

  /** The callbacks that deliver `ws`. */
  function Deliver(clock: U64, ws: seq<WirePacket>): (calls: seq<Call>)
    ensures |calls| == |ws|
    decreases |ws|
  {
    if ws == [] then [] else [Delivered(clock, ws[0])] + Deliver(Tick(clock, ws[0]), ws[1..])
  }

  function SumOfDeltas(ws: seq<WirePacket>): nat {
    if ws == [] then 0 else LittleEndian(ws[0].delta) + SumOfDeltas(ws[1..])
  }

  lemma AddThenMod(a: nat, b: nat)
    ensures (a % TWO_64 + b) % TWO_64 == (a + b) % TWO_64
  {
  }

  lemma {:induction false} ClockIsSum(clock: U64, ws: seq<WirePacket>)
    ensures ClockAfter(clock, ws) == (clock + SumOfDeltas(ws)) % TWO_64
    decreases |ws|
  {
    if ws != [] {
      ClockIsSum(Tick(clock, ws[0]), ws[1..]);
      AddThenMod(clock + LittleEndian(ws[0].delta), SumOfDeltas(ws[1..]));
    }
  }

  /** Packet `i` is delivered with its own header and data, and the sum of the deltas up to its own as timestamp. */
  lemma {:induction false} DeliveredTimestamp(clock: U64, ws: seq<WirePacket>, i: nat)
    requires i < |ws|
    ensures Deliver(clock, ws)[i]
         == PacketCall(Packet(ws[i].header, (clock + SumOfDeltas(ws[..i + 1])) % TWO_64, ws[i].data))
    decreases |ws|
  {
    if i == 0 {
      assert ws[..1] == [ws[0]];
      assert ws[..1][1..] == [];
    } else {
      var clock' := Tick(clock, ws[0]);
      DeliveredTimestamp(clock', ws[1..], i - 1);
      assert ws[1..][..i] == ws[..i + 1][1..];
      AddThenMod(clock + LittleEndian(ws[0].delta), SumOfDeltas(ws[1..][..i]));
    }
  }

  // ---------------------------------------------------------------- decoding what was encoded

  lemma {:induction false} FillersRun(clock: U64, n: nat)
    ensures Run(PacketStep, PacketState(Idle, clock), Fillers(n)) == Next(PacketState(Idle, clock), [])
  {
    if n > 0 {
      FillersRun(clock, n - 1);
      assert Fillers(n)[1..] == Fillers(n - 1);
    }
  }

  lemma FourBytes(s: PacketState, a: Byte, b: Byte, c: Byte, d: Byte)
    requires s.phase.Idle? && IsPacketMagic(a)
    ensures Run(PacketStep, s, [a, b, c, d])
         == Next(s.(phase := Stamping(Header(a, b, SizeOf(c, d)), 0, DeltaLength(d), 0)), [])
  {
    var s3 := s.(phase := GotLengthLo(a, b, c));
    RunOne(PacketStep, s3, d);
    assert [a, b, c, d][1..] == [b, c, d] && [b, c, d][1..] == [c, d] && [c, d][1..] == [d];
    assert Run(PacketStep, s.(phase := GotFlags(a, b)), [c, d]) == Run(PacketStep, s3, [d]);
    assert Run(PacketStep, s.(phase := GotMagic(a)), [b, c, d]) == Run(PacketStep, s3, [d]);
  }

  lemma HeaderRun(w: WirePacket, clock: U64)
    requires w.Valid()
    ensures Run(PacketStep, PacketState(Idle, clock), EncodeHeader(w))
         == Next(PacketState(Stamping(w.header, 0, |w.delta|, 0), clock), [])
  {
    var e := EncodeHeader(w);
    FourBytes(PacketState(Idle, clock), e[0], e[1], e[2], e[3]);
  }

  /** `done` bytes of the delta have been read; after `xs` it is complete, or still short. */
  lemma {:induction false} StampRun(h: Header, total: nat, clock: U64, done: seq<Byte>, xs: seq<Byte>)
    requires |done| < total && |done| + |xs| <= total
    ensures Run(PacketStep, PacketState(Stamping(h, |done|, total, LittleEndian(done)), clock), xs)
         == Next(if |done| + |xs| == total then PacketState(Filling(h, []), Advance(clock, done + xs))
                 else PacketState(Stamping(h, |done| + |xs|, total, LittleEndian(done + xs)), clock), [])
    decreases |xs|
  {
    if xs == [] {
      assert done + xs == done;
    } else {
      LittleEndianSnoc(done, xs[0]);
      assert done + [xs[0]] + xs[1..] == done + xs;
      if |xs| == 1 {
        assert xs[1..] == [] && done + xs == done + [xs[0]];
      } else {
        StampRun(h, total, clock, done + [xs[0]], xs[1..]);
      }
    }
  }

  /** Where one encoded packet leaves the decoder: an empty one is still pending. */
  function AfterPacket(clock: U64, w: WirePacket): PacketOutcome {
    var clock' := Tick(clock, w);
    if w.data == [] then Next(PacketState(Filling(w.header, []), clock'), [])
    else Next(PacketState(Idle, clock'), [Delivered(clock, w)])
  }

  /** The header and the delta, up to the data. */
  lemma PreambleRun(w: WirePacket, clock: U64)
    requires w.Valid()
    ensures Run(PacketStep, PacketState(Idle, clock), EncodeHeader(w) + w.delta)
         == Next(PacketState(Filling(w.header, []), Tick(clock, w)), [])
  {
    HeaderRun(w, clock);
    RunOn(PacketStep, PacketState(Idle, clock), EncodeHeader(w),
          PacketState(Stamping(w.header, 0, |w.delta|, 0), clock), w.delta);
    StampRun(w.header, |w.delta|, clock, [], w.delta);
    assert [] + w.delta == w.delta;
  }

  /** The data of an announced packet. */
  lemma DataRun(w: WirePacket, clock: U64)
    requires w.Valid()
    ensures Run(PacketStep, PacketState(Filling(w.header, []), Tick(clock, w)), w.data) == AfterPacket(clock, w)
  {
    if w.data != [] {
      FillAll(w.header, [], Tick(clock, w), w.data);
      assert [] + w.data == w.data;
    }
  }

  lemma EncodedRun(w: WirePacket, clock: U64)
    requires w.Valid()
    ensures Run(PacketStep, PacketState(Idle, clock), Encode(w)) == AfterPacket(clock, w)
  {
    var idle := PacketState(Idle, clock);
    var preamble := EncodeHeader(w) + w.delta;
    Assoc(EncodeHeader(w), w.delta, w.data);
    FillersRun(clock, w.fillers);
    RunOn(PacketStep, idle, Fillers(w.fillers), idle, preamble + w.data);
    PreambleRun(w, clock);
    RunOn(PacketStep, idle, preamble, PacketState(Filling(w.header, []), Tick(clock, w)), w.data);
    DataRun(w, clock);
  }

  /** An encoded packet followed by something: it is delivered, and the rest is read from an idle state. */
  lemma EncodedThen(w: WirePacket, clock: U64, rest: seq<Byte>)
    requires w.Valid() && (w.data == [] ==> rest != [])
    ensures Run(PacketStep, PacketState(Idle, clock), Encode(w) + rest)
         == Run(PacketStep, PacketState(Idle, Tick(clock, w)), rest).After([Delivered(clock, w)])
  {
    var idle := PacketState(Idle, clock);
    EncodedRun(w, clock);
    RunConcat(PacketStep, idle, Encode(w), rest);
    if w.data == [] {
      var pending := AfterPacket(clock, w).state;
      PendingFirst(pending, rest);
      AfterNothing(Run(PacketStep, pending, rest));
    }
  }

  /** Fillers after the last packet, at least one when that packet is empty: what delivers all of them. */
  ghost predicate Flushes(ws: seq<WirePacket>, n: nat) {
    ws != [] && ws[|ws| - 1].data == [] ==> n > 0
  }

  /** Decoding undoes encoding. */
  lemma {:induction false} RoundTrip(ws: seq<WirePacket>, n: nat, clock: U64)
    requires AllValid(ws) && Flushes(ws, n)
    ensures Run(PacketStep, PacketState(Idle, clock), EncodeAll(ws) + Fillers(n))
         == Next(PacketState(Idle, ClockAfter(clock, ws)), Deliver(clock, ws))
    decreases |ws|
  {
    if ws == [] {
      FillersRun(clock, n);
      assert EncodeAll(ws) + Fillers(n) == Fillers(n);
    } else {
      var rest := EncodeAll(ws[1..]) + Fillers(n);
      assert EncodeAll(ws) + Fillers(n) == Encode(ws[0]) + rest;
      if |ws| > 1 {
        assert ws[1..][|ws| - 2] == ws[|ws| - 1];
        assert |EncodeAll(ws[1..])| >= |EncodeHeader(ws[1])|;
      }
      EncodedThen(ws[0], clock, rest);
      RoundTrip(ws[1..], n, Tick(clock, ws[0]));
    }
  }

  // ---------------------------------------------------------------- only what was encoded is decoded

  lemma ShortHeader(s: PacketState, bs: seq<Byte>)
    requires s.phase.Idle? && 1 <= |bs| <= 3 && IsPacketMagic(bs[0])
    ensures !Run(PacketStep, s, bs).state.phase.Idle?
  {
    var s1 := s.(phase := GotMagic(bs[0]));
    assert Run(PacketStep, s, bs).state == Run(PacketStep, s1, bs[1..]).state;
    if |bs| > 1 {
      var s2 := s.(phase := GotFlags(bs[0], bs[1]));
      assert bs[1..][1..] == bs[2..];
      assert Run(PacketStep, s1, bs[1..]).state == Run(PacketStep, s2, bs[2..]).state;
      if |bs| > 2 {
        assert bs[2..] == [bs[2]];
        RunOne(PacketStep, s2, bs[2]);
      }
    }
  }

  /** A run that ends idle has read the four bytes of a header, once it has read its magic. */
  lemma TakeHeader(clock: U64, bs: seq<Byte>)
    requires bs != [] && IsPacketMagic(bs[0])
    requires Run(PacketStep, PacketState(Idle, clock), bs).Next?
    requires Run(PacketStep, PacketState(Idle, clock), bs).state.phase.Idle?
    ensures |bs| >= 4
    ensures
      var stamping := Stamping(Header(bs[0], bs[1], SizeOf(bs[2], bs[3])), 0, DeltaLength(bs[3]), 0);
      Run(PacketStep, PacketState(Idle, clock), bs) == Run(PacketStep, PacketState(stamping, clock), bs[4..])
  {
    var idle := PacketState(Idle, clock);
    if |bs| < 4 {
      ShortHeader(idle, bs);
      assert false;
    }
    FourBytes(idle, bs[0], bs[1], bs[2], bs[3]);
    assert bs[..4] == [bs[0], bs[1], bs[2], bs[3]] && bs == bs[..4] + bs[4..];
    RunOn(PacketStep, idle, bs[..4], Run(PacketStep, idle, bs[..4]).state, bs[4..]);
  }

  /** ... then the delta the header announces ... */
  lemma TakeDelta(h: Header, total: nat, clock: U64, bs: seq<Byte>)
    requires 1 <= total <= 8
    requires Run(PacketStep, PacketState(Stamping(h, 0, total, 0), clock), bs).Next?
    requires Run(PacketStep, PacketState(Stamping(h, 0, total, 0), clock), bs).state.phase.Idle?
    ensures |bs| >= total
    ensures
      var filling := PacketState(Filling(h, []), Advance(clock, bs[..total]));
      Run(PacketStep, PacketState(Stamping(h, 0, total, 0), clock), bs) == Run(PacketStep, filling, bs[total..])
  {
    if |bs| < total {
      StampRun(h, total, clock, [], bs);
      assert false;
    }
    var delta := bs[..total];
    StampRun(h, total, clock, [], delta);
    assert bs == delta + bs[total..] && [] + delta == delta;
    RunOn(PacketStep, PacketState(Stamping(h, 0, total, 0), clock), delta,
          PacketState(Filling(h, []), Advance(clock, delta)), bs[total..]);
  }

  lemma Reassemble(w: WirePacket, bs: seq<Byte>, rest: seq<Byte>)
    requires w.Valid() && w.fillers == 0 && |bs| >= 4
    requires w.header == Header(bs[0], bs[1], SizeOf(bs[2], bs[3])) && |w.delta| == DeltaLength(bs[3])
    requires |bs[4..]| >= |w.delta| && bs[4..][..|w.delta|] == w.delta
    requires bs[4..][|w.delta|..] == w.data + rest
    ensures bs == Encode(w) + rest
  {
    assert EncodeHeader(w) == bs[..4];
    assert bs == bs[..4] + bs[4..];
    assert bs[4..] == (w.delta + w.data) + rest;
    assert Encode(w) == EncodeHeader(w) + (w.delta + w.data);
  }

  /** ... and the data. */
  lemma TakeData(h: Header, clock: U64, bs: seq<Byte>)
    requires Run(PacketStep, PacketState(Filling(h, []), clock), bs).Next?
    requires Run(PacketStep, PacketState(Filling(h, []), clock), bs).state.phase.Idle?
    ensures h.CapturedSize() <= |bs| && (h.CapturedSize() == 0 ==> bs != [])
  {
    if |bs| < h.CapturedSize() {
      FillPart(h, [], clock, bs);
      assert false;
    }
  }

  lemma TakePacket(clock: U64, bs: seq<Byte>) returns (w: WirePacket, rest: seq<Byte>)
    requires bs != [] && IsPacketMagic(bs[0])
    requires Run(PacketStep, PacketState(Idle, clock), bs).Next?
    requires Run(PacketStep, PacketState(Idle, clock), bs).state.phase.Idle?
    ensures w.Valid() && w.fillers == 0 && (w.data == [] ==> rest != [])
    ensures bs == Encode(w) + rest
  {
    TakeHeader(clock, bs);
    var h := Header(bs[0], bs[1], SizeOf(bs[2], bs[3]));
    var total := DeltaLength(bs[3]);
    TakeDelta(h, total, clock, bs[4..]);
    var delta, u := bs[4..][..total], bs[4..][total..];
    TakeData(h, Advance(clock, delta), u);
    w, rest := WirePacket(0, h, delta, u[..h.CapturedSize()]), u[h.CapturedSize()..];
    assert u == w.data + rest;
    Reassemble(w, bs, rest);
  }

  lemma OneMoreFiller(w: WirePacket) returns (w': WirePacket)
    requires w.Valid()
    ensures w' == w.(fillers := w.fillers + 1) && w'.Valid()
    ensures Encode(w') == [PACKET_FILLER] + Encode(w)
  {
    w' := w.(fillers := w.fillers + 1);
    assert Fillers(w'.fillers) == [PACKET_FILLER] + Fillers(w.fillers);
  }

  lemma PrependFiller(ws: seq<WirePacket>, n: nat) returns (ws': seq<WirePacket>, n': nat)
    requires AllValid(ws) && Flushes(ws, n)
    ensures AllValid(ws') && Flushes(ws', n')
    ensures EncodeAll(ws') + Fillers(n') == [PACKET_FILLER] + (EncodeAll(ws) + Fillers(n))
  {
    if ws == [] {
      ws', n' := [], n + 1;
    } else {
      var w := OneMoreFiller(ws[0]);
      ws', n' := [w] + ws[1..], n;
      assert ws'[1..] == ws[1..];
      Assoc([PACKET_FILLER], Encode(ws[0]), EncodeAll(ws[1..]));
      Assoc([PACKET_FILLER], EncodeAll(ws), Fillers(n));
    }
  }

  /** Whatever the decoder reads to the end, ending idle, is an encoding, and what it delivers is what was encoded. */
  lemma {:induction false} Unparse(clock: U64, bs: seq<Byte>) returns (ws: seq<WirePacket>, n: nat)
    requires Run(PacketStep, PacketState(Idle, clock), bs).Next?
    requires Run(PacketStep, PacketState(Idle, clock), bs).state.phase.Idle?
    ensures AllValid(ws) && Flushes(ws, n)
    ensures bs == EncodeAll(ws) + Fillers(n)
    decreases |bs|
  {
    if bs == [] {
      ws, n := [], 0;
    } else if bs[0] == PACKET_FILLER {
      var ws', n' := Unparse(clock, bs[1..]);
      ws, n := PrependFiller(ws', n');
      assert bs == [PACKET_FILLER] + bs[1..];
    } else {
      var w, rest := TakePacket(clock, bs);
      EncodedThen(w, clock, rest);
      var ws', n' := Unparse(Tick(clock, w), rest);
      ws, n := [w] + ws', n';
      assert ws[1..] == ws';
    }
  }

  /** `bs` is an encoding of packets that the callbacks `calls` deliver, and the clock ends at `t`. */
  ghost predicate Encodes(bs: seq<Byte>, clock: U64, ws: seq<WirePacket>, n: nat, t: U64, calls: seq<Call>) {
    && AllValid(ws) && Flushes(ws, n)
    && bs == EncodeAll(ws) + Fillers(n)
    && t == ClockAfter(clock, ws)
    && calls == Deliver(clock, ws)
  }

  /** The decoder is exactly the inverse of the encoder. */
  lemma DecodingIsInverse(clock: U64, bs: seq<Byte>, t: U64, calls: seq<Call>)
    ensures Run(PacketStep, PacketState(Idle, clock), bs) == Next(PacketState(Idle, t), calls)
       <==> exists ws, n :: Encodes(bs, clock, ws, n, t, calls)
  {
    if Run(PacketStep, PacketState(Idle, clock), bs) == Next(PacketState(Idle, t), calls) {
      var ws, n := Unparse(clock, bs);
      RoundTrip(ws, n, clock);
      assert Encodes(bs, clock, ws, n, t, calls);
    }
    if ws, n :| Encodes(bs, clock, ws, n, t, calls) {
      RoundTrip(ws, n, clock);
    }
  }
}
