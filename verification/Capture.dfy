/** A whole capture: from the wire to the packets delivered, and from those to the files of tools/ovextcap/main.c. */
module Capture {
  import opened Bytes
  import opened Stream
  import opened DecoderSpec
  import opened Wire
  import opened Demux
  import opened Storage
  import opened LoopModel
  import opened LoopRuns
  import opened OvPackets
  import opened Clock
  import opened FilterSpec
  import opened Extcap

  /** A packet as the decoder delivers it: with all the data its header announces. */
  ghost predicate Whole(p: Packet) {
    |p.data| == p.header.CapturedSize() <= MAX_CAPTURED_SIZE
  }

  ghost predicate AllWhole(ps: seq<Packet>) {
    forall i | 0 <= i < |ps| :: Whole(ps[i])
  }

  ghost predicate WholeCalls(calls: seq<Call>) {
    forall i | 0 <= i < |calls| :: calls[i].PacketCall? ==> Whole(calls[i].packet)
  }

  lemma StepIsWhole(s: FrameState, b: Byte)
    requires s.Valid()
    ensures WholeCalls(FrameStep(s, b).calls) && FrameStep(s, b).state.Valid()
  {
    PacketStepValid(s.packets, b);
  }

  /** The decoder delivers whole packets only. */
  lemma {:induction false} DecodedAreWhole(s: FrameState, bs: seq<Byte>)
    requires s.Valid()
    ensures WholeCalls(Run(FrameStep, s, bs).calls)
    decreases |bs|
  {
    if bs != [] {
      StepIsWhole(s, bs[0]);
      var o := FrameStep(s, bs[0]);
      if o.Next? {
        DecodedAreWhole(o.state, bs[1..]);
      }
    }
  }

  lemma {:induction false} WholeCallsOf(packets: bool, calls: seq<Call>)
    requires WholeCalls(calls)
    ensures WholeCalls(CallsOf(packets, calls))
  {
    if calls != [] {
      assert forall i | 0 <= i < |calls[1..]| :: calls[1..][i] == calls[i + 1];
      WholeCallsOf(packets, calls[1..]);
    }
  }

  /** So a run of the capture loop accepts whole packets only. */
  lemma AcceptedAreWhole(cfg: Config, l: Loop, count: int, first: nat, hs: seq<Happening>)
    requires cfg.maxPacketSize > 0
    requires l.Valid() && l.active == 0 && l.state == Running && l.decoder.value.Valid() && first <= TRANSFERS
    requires Start(l, count, first).Waiting() && AllPossible(cfg, Start(l, count, first), hs)
    ensures AllWhole(Exec(cfg, Start(l, count, first), hs).accepted)
  {
    var accepted := Exec(cfg, Start(l, count, first), hs).accepted;
    var calls := Run(FrameStep, l.decoder.value, Received(cfg, hs)).calls;
    EndToEndDelivery(cfg, l, count, first, hs);
    DecodedAreWhole(l.decoder.value, Received(cfg, hs));
    WholeCallsOf(true, calls);
    forall i | 0 <= i < |accepted|
      ensures Whole(accepted[i])
    {
      assert AsCalls(accepted)[i] == PacketCallsOf(calls)[i];
    }
  }

  ghost predicate AllFit(ps: seq<Packet>, capacity: nat) {
    forall i | 0 <= i < |ps| :: |ps[i].data| <= capacity
  }

  ghost predicate FittingCalls(calls: seq<Call>, capacity: nat) {
    forall i | 0 <= i < |calls| :: calls[i].PacketCall? ==> |calls[i].packet.data| <= capacity
  }

  /** Of a stream that fits the storage, so do the packets delivered. */
  lemma {:induction false} DecodedFit(s: FrameState, bs: seq<Byte>, capacity: nat)
    requires StreamFits(s, bs, capacity)
    requires s.packets.phase.Filling? ==> |s.packets.phase.got| <= capacity
    ensures FittingCalls(Run(FrameStep, s, bs).calls, capacity)
    decreases |bs|
  {
    if bs != [] {
      var o := FrameStep(s, bs[0]);
      if o.Next? {
        DecodedFit(o.state, bs[1..], capacity);
      }
    }
  }

  lemma {:induction false} FittingCallsOf(packets: bool, calls: seq<Call>, capacity: nat)
    requires FittingCalls(calls, capacity)
    ensures FittingCalls(CallsOf(packets, calls), capacity)
  {
    if calls != [] {
      assert forall i | 0 <= i < |calls[1..]| :: calls[1..][i] == calls[i + 1];
      FittingCallsOf(packets, calls[1..], capacity);
    }
  }

  /** So a run that receives a stream that fits accepts packets that fit. */
  lemma AcceptedFit(cfg: Config, l: Loop, count: int, first: nat, hs: seq<Happening>, capacity: nat)
    requires cfg.maxPacketSize > 0
    requires l.Valid() && l.active == 0 && l.state == Running && l.decoder == Some(INITIAL_STATE) && first <= TRANSFERS
    requires Start(l, count, first).Waiting() && AllPossible(cfg, Start(l, count, first), hs)
    requires StreamFits(INITIAL_STATE, Received(cfg, hs), capacity)
    ensures AllFit(Exec(cfg, Start(l, count, first), hs).accepted, capacity)
  {
    var accepted := Exec(cfg, Start(l, count, first), hs).accepted;
    var calls := Run(FrameStep, INITIAL_STATE, Received(cfg, hs)).calls;
    EndToEndDelivery(cfg, l, count, first, hs);
    DecodedFit(INITIAL_STATE, Received(cfg, hs), capacity);
    FittingCallsOf(true, calls, capacity);
    forall i | 0 <= i < |accepted|
      ensures |accepted[i].data| <= capacity
    {
      assert AsCalls(accepted)[i] == PacketCallsOf(calls)[i];
    }
  }

  lemma WireDecoded(ws: seq<WirePacket>, n: nat, fs: seq<Frame>)
    requires AllValid(ws) && Flushes(ws, n) && AllFrames(fs) && Payloads(fs) == EncodeAll(ws) + Fillers(n)
    ensures PacketCallsOf(Run(FrameStep, INITIAL_STATE, SerialiseAll(fs)).calls) == Deliver(0, ws)
  {
    var chunks := [SerialiseAll(fs)];
    assert chunks[1..] == [] && Flatten(chunks) == SerialiseAll(fs) + [] == SerialiseAll(fs);
    CaptureRoundTrip(ws, n, fs, chunks);
    ChunkInvariance(FrameStep, INITIAL_STATE, chunks);
  }

  /**
   * From the wire to the packet callback: packets encoded, spread over SDRAM frames among bus frames, and received in
   * transfers and blocks of any lengths are exactly those a loop has accepted that started fresh and is still running.
   */
  lemma WireToCallback(
    cfg: Config, l: Loop, count: int, first: nat, hs: seq<Happening>, ws: seq<WirePacket>, n: nat, fs: seq<Frame>)
    requires cfg.maxPacketSize > 0
    requires l.Valid() && l.active == 0 && l.state == Running && l.decoder == Some(INITIAL_STATE) && first <= TRANSFERS
    requires Start(l, count, first).Waiting() && AllPossible(cfg, Start(l, count, first), hs)
    requires AllValid(ws) && Flushes(ws, n) && AllFrames(fs) && Payloads(fs) == EncodeAll(ws) + Fillers(n)
    requires Received(cfg, hs) == SerialiseAll(fs)
    requires Exec(cfg, Start(l, count, first), hs).state == Running
    ensures AsCalls(Exec(cfg, Start(l, count, first), hs).accepted) == Deliver(0, ws)
  {
    EndToEndDelivery(cfg, l, count, first, hs);
    WireDecoded(ws, n, fs);
  }

  /** The records of the packets that were on the wire, each with its time. */
  ghost function Handled(start: Clock, ps: seq<Packet>): (Clock, seq<Recorded>)
    requires AllWhole(ps)
  {
    if ps == [] then (start, [])
    else
      var p := ps[|ps| - 1];
      var (before, records) := Handled(start, ps[..|ps| - 1]);
      var time := before.Tick(p.timestamp);
      (time, if p.header.size > 0 then records + [Captured(time, p.header, p.data)] else records)
  }

  function Timestamps(ps: seq<Packet>): seq<U64> {
    seq(|ps|, i requires 0 <= i < |ps| => ps[i].timestamp)
  }

  lemma {:induction false} TickAllSnoc(c: Clock, tss: seq<U64>, ts: U64)
    ensures TickAll(c, tss + [ts]) == TickAll(c, tss).Tick(ts)
    decreases |tss|
  {
    if tss == [] {
      assert [ts][1..] == [] && tss + [ts] == [ts];
    } else {
      assert (tss + [ts])[0] == tss[0] && (tss + [ts])[1..] == tss[1..] + [ts];
      TickAllSnoc(c.Tick(tss[0]), tss[1..], ts);
    }
  }

  /** Every packet advances the clock, also one without a record. */
  lemma {:induction false} HandledClock(start: Clock, ps: seq<Packet>)
    requires AllWhole(ps)
    ensures Handled(start, ps).0 == TickAll(start, Timestamps(ps))
  {
    if ps != [] {
      var n := |ps| - 1;
      HandledClock(start, ps[..n]);
      assert Timestamps(ps) == Timestamps(ps[..n]) + [ps[n].timestamp];
      TickAllSnoc(start, Timestamps(ps[..n]), ps[n].timestamp);
    }
  }

  // ---------------------------------------------------------------- times

  /** A packet recorded `t` ticks after the epoch: whole seconds, and the rest rounded up to a nanosecond. */
  function Timed(t: nat, p: Packet): Recorded
    requires 0 < |p.data| < 0x1_0000_0000 && t / 60_000_000 < 0x1_0000_0000
  {
    PcapPacket(t / 60_000_000, (50 * (t % 60_000_000) + 2) / 3, p.header.size, p.data)
  }

  /** Timestamps do not decrease, and do not take the clock past its ranges. */
  ghost predicate InOrder(sec: U32, ps: seq<Packet>) {
    && (forall i, j | 0 <= i <= j < |ps| :: ps[i].timestamp <= ps[j].timestamp)
    && (forall i | 0 <= i < |ps| :: ps[i].timestamp + FREQ <= TWO_64 && sec + ps[i].timestamp / FREQ + 1 < TWO_32)
  }

  /** The tick since the epoch at which a capture has started. */
  function StartTick(sec: U32, nsec: U32): nat
    requires nsec < NANOS
  {
    sec * FREQ + StartClock(sec, nsec).offset
  }

  lemma TickInRange(sec: U32, nsec: U32, ts: U64)
    requires nsec < NANOS && sec + ts / FREQ + 1 < TWO_32
    ensures (StartTick(sec, nsec) + ts) / 60_000_000 < 0x1_0000_0000
  {
    StartOffset(sec, nsec);
  }

  /** The packets that were on the wire, each recorded at the start of the capture plus its own timestamp. */
  ghost function TimedRecords(sec: U32, nsec: U32, ps: seq<Packet>): seq<Recorded>
    requires nsec < NANOS && AllWhole(ps) && InOrder(sec, ps)
  {
    if ps == [] then []
    else
      var p := ps[|ps| - 1];
      TickInRange(sec, nsec, p.timestamp);
      TimedRecords(sec, nsec, ps[..|ps| - 1])
      + (if p.header.size > 0 then [Timed(StartTick(sec, nsec) + p.timestamp, p)] else [])
  }

  lemma CapturedIsTimed(c: Clock, t: nat, p: Packet)
    requires ShowsTicks(c, t) && 0 < |p.data| < 0x1_0000_0000
    ensures Captured(c, p.header, p.data) == Timed(t, p)
  {
    NanosecondsRoundUp(c);
  }

  /** The clock at the last packet. */
  lemma LastTime(sec: U32, nsec: U32, ps: seq<Packet>)
    requires nsec < NANOS && AllWhole(ps) && InOrder(sec, ps) && ps != []
    ensures ShowsTicks(Handled(StartClock(sec, nsec), ps).0, StartTick(sec, nsec) + ps[|ps| - 1].timestamp)
  {
    var c, tss := StartClock(sec, nsec), Timestamps(ps);
    StartOffset(sec, nsec);
    HandledClock(c, ps);
    assert forall i | 0 <= i < |tss| :: tss[i] == ps[i].timestamp;
    CaptureTime(c, tss);
  }

  /** The incremental clock gives every record the exact time of its own packet: no error is carried on to the next. */
  lemma {:induction false} RecordsAreTimed(sec: U32, nsec: U32, ps: seq<Packet>)
    requires nsec < NANOS && AllWhole(ps) && InOrder(sec, ps)
    ensures Handled(StartClock(sec, nsec), ps).1 == TimedRecords(sec, nsec, ps)
  {
    if ps != [] {
      var n := |ps| - 1;
      RecordsAreTimed(sec, nsec, ps[..n]);
      LastTime(sec, nsec, ps);
      if ps[n].header.size > 0 {
        CapturedIsTimed(Handled(StartClock(sec, nsec), ps).0, StartTick(sec, nsec) + ps[n].timestamp, ps[n]);
      }
    }
  }

  // ---------------------------------------------------------------- files

  /** The records of the debug file, and of the output, of a capture of the packets `ps`. */
  ghost function DebugFile(sec: U32, nsec: U32, ps: seq<Packet>): seq<Byte>
    requires nsec < NANOS && AllWhole(ps)
  {
    Records(Handled(StartClock(sec, nsec), ps).1)
  }

  ghost function OutputFile(flags: Flags, sec: U32, nsec: U32, ps: seq<Packet>): seq<Byte>
    requires nsec < NANOS && AllWhole(ps)
  {
    Records(Written(flags, Handled(StartClock(sec, nsec), ps).1))
  }

  /** The packets of a wire stream, each with the sum of the deltas up to its own as timestamp. */
  function Sent(ws: seq<WirePacket>): (ps: seq<Packet>)
    ensures |ps| == |ws|
  {
    seq(|ws|, i requires 0 <= i < |ws| => Packet(ws[i].header, SumOfDeltas(ws[..i + 1]) % TWO_64, ws[i].data))
  }

  lemma {:induction false} SumOfPrefix(ws: seq<WirePacket>, n: nat)
    requires n <= |ws|
    ensures SumOfDeltas(ws[..n]) <= SumOfDeltas(ws)
  {
    if n > 0 {
      assert ws[..n][1..] == ws[1..][..n - 1];
      SumOfPrefix(ws[1..], n - 1);
    }
  }

  lemma SentAt(ws: seq<WirePacket>, i: nat)
    requires SumOfDeltas(ws) < TWO_64 && i < |ws|
    ensures i < |Sent(ws)|
    ensures Sent(ws)[i].timestamp == SumOfDeltas(ws[..i + 1]) <= SumOfDeltas(ws)
  {
    SumOfPrefix(ws, i + 1);
  }

  lemma SentInOrder(sec: U32, ws: seq<WirePacket>)
    requires SumOfDeltas(ws) + FREQ <= TWO_64 && sec + SumOfDeltas(ws) / FREQ + 1 < TWO_32
    ensures InOrder(sec, Sent(ws))
  {
    forall i, j | 0 <= i <= j < |ws|
      ensures Sent(ws)[i].timestamp <= Sent(ws)[j].timestamp
    {
      SentAt(ws, i);
      SentAt(ws, j);
      SumOfPrefix(ws[..j + 1], i + 1);
      assert ws[..j + 1][..i + 1] == ws[..i + 1];
    }
    forall i | 0 <= i < |ws|
      ensures Sent(ws)[i].timestamp <= SumOfDeltas(ws)
    {
      SentAt(ws, i);
    }
  }

  lemma DeliversSent(ws: seq<WirePacket>)
    ensures Deliver(0, ws) == AsCalls(Sent(ws))
  {
    forall i | 0 <= i < |ws|
      ensures Deliver(0, ws)[i] == PacketCall(Sent(ws)[i])
    {
      DeliveredTimestamp(0, ws, i);
    }
  }

  /** The packets a run accepts of an encoded stream are the first ones that were sent. */
  lemma AcceptedAreSent(
    cfg: Config, l: Loop, count: int, first: nat, hs: seq<Happening>, ws: seq<WirePacket>, n: nat, fs: seq<Frame>)
    requires cfg.maxPacketSize > 0
    requires l.Valid() && l.active == 0 && l.state == Running && l.decoder == Some(INITIAL_STATE) && first <= TRANSFERS
    requires Start(l, count, first).Waiting() && AllPossible(cfg, Start(l, count, first), hs)
    requires AllValid(ws) && Flushes(ws, n) && AllFrames(fs) && Payloads(fs) == EncodeAll(ws) + Fillers(n)
    requires Received(cfg, hs) == SerialiseAll(fs)
    ensures Exec(cfg, Start(l, count, first), hs).accepted <= Sent(ws)
    ensures
      var l' := Exec(cfg, Start(l, count, first), hs);
      l'.state == Running ==> l'.accepted == Sent(ws)
  {
    EndToEndDelivery(cfg, l, count, first, hs);
    WireDecoded(ws, n, fs);
    DeliversSent(ws);
    CallsPrefix(Exec(cfg, Start(l, count, first), hs).accepted, Sent(ws));
  }

  lemma InOrderPrefix(sec: U32, a: seq<Packet>, b: seq<Packet>)
    requires a <= b && InOrder(sec, b)
    ensures InOrder(sec, a)
  {
    assert forall i | 0 <= i < |a| :: a[i] == b[i];
  }

  lemma CallsPrefix(a: seq<Packet>, b: seq<Packet>)
    requires AsCalls(a) <= AsCalls(b)
    ensures a <= b
  {
    forall i | 0 <= i < |a|
      ensures a[i] == b[i]
    {
      assert AsCalls(a)[i] == AsCalls(b)[i];
    }
  }

  /**
   * From the wire to the files: of packets encoded, spread over frames, and received in any transfers and blocks, a
   * run of the loop accepts the first ones, and all while it is running; and the files of a capture of what it accepts
   * have those packets that were on the wire, less what the filter drops in the output, each at the start of the
   * capture plus the deltas up to its own.
   */
  lemma WireToFile(
    cfg: Config, l: Loop, count: int, first: nat, hs: seq<Happening>, ws: seq<WirePacket>, n: nat, fs: seq<Frame>,
    flags: Flags, sec: U32, nsec: U32)
    requires cfg.maxPacketSize > 0
    requires l.Valid() && l.active == 0 && l.state == Running && l.decoder == Some(INITIAL_STATE) && first <= TRANSFERS
    requires Start(l, count, first).Waiting() && AllPossible(cfg, Start(l, count, first), hs)
    requires AllValid(ws) && Flushes(ws, n) && AllFrames(fs) && Payloads(fs) == EncodeAll(ws) + Fillers(n)
    requires Received(cfg, hs) == SerialiseAll(fs)
    requires nsec < NANOS && SumOfDeltas(ws) + FREQ <= TWO_64 && sec + SumOfDeltas(ws) / FREQ + 1 < TWO_32
    ensures
      var accepted := Exec(cfg, Start(l, count, first), hs).accepted;
      && accepted <= Sent(ws)
      && (Exec(cfg, Start(l, count, first), hs).state == Running ==> accepted == Sent(ws))
      && AllWhole(accepted) && InOrder(sec, accepted)
      && DebugFile(sec, nsec, accepted) == Records(TimedRecords(sec, nsec, accepted))
      && OutputFile(flags, sec, nsec, accepted) == Records(Written(flags, TimedRecords(sec, nsec, accepted)))
  {
    var accepted := Exec(cfg, Start(l, count, first), hs).accepted;
    AcceptedAreSent(cfg, l, count, first, hs, ws, n, fs);
    AcceptedAreWhole(cfg, l, count, first, hs);
    SentInOrder(sec, ws);
    InOrderPrefix(sec, accepted, Sent(ws));
    RecordsAreTimed(sec, nsec, accepted);
  }

  // ---------------------------------------------------------------- deltas that lose time

  lemma {:induction false} LittleEndianBound(bs: seq<Byte>)
    ensures LittleEndian(bs) < Pow256(|bs|)
  {
    if bs != [] { LittleEndianBound(bs[1..]); }
  }

  /** A packet on the wire advances the clock exactly iff its delta and the offset together are below 2^64. */
  lemma DeltaExactIff(c: Clock, w: WirePacket)
    requires c.offset < FREQ && w.Valid()
    ensures
      var delta, ts := LittleEndian(w.delta), Advance(c.last, w.delta);
      c.Tick(ts) == At(c.utc, c.offset + delta, ts) <==> c.offset + delta < TWO_64
  {
    var delta, ts := LittleEndian(w.delta), Advance(c.last, w.delta);
    LittleEndianBound(w.delta);
    Pow256AtMost8(|w.delta|);
    assert c.Diff(ts) == delta by {
      if c.last + delta < TWO_64 {
        assert ts == c.last + delta;
      } else {
        assert ts == c.last + delta - TWO_64;
      }
    }
    TickExactIff(c, ts);
  }

  /** `n` bytes 0xff. */
  function AllOnes(n: nat): (bs: seq<Byte>)
    ensures |bs| == n
  {
    if n == 0 then [] else [0xff] + AllOnes(n - 1)
  }

  lemma {:induction false} AllOnesIs(n: nat)
    ensures LittleEndian(AllOnes(n)) == Pow256(n) - 1
  {
    if n > 0 {
      AllOnesIs(n - 1);
      assert AllOnes(n)[1..] == AllOnes(n - 1);
    }
  }

  lemma LongestDelta()
    ensures LittleEndian(AllOnes(8)) == TWO_64 - 1
  {
    AllOnesIs(8);
    assert Pow256(4) == 0x1_0000_0000;
    assert Pow256(8) == TWO_64;
  }

  lemma TwoPackets(a: WirePacket, b: WirePacket)
    requires LittleEndian(a.delta) == 1 && LittleEndian(b.delta) == TWO_64 - 1
    ensures SumOfDeltas([a, b]) == TWO_64
    ensures Timestamps(Sent([a, b])) == [1, 0]
  {
    var ws := [a, b];
    assert ws[1..] == [b] && [b][1..] == [] && ws[..1] == [a] && [a][1..] == [] && ws[..2] == ws;
    assert SumOfDeltas([b]) == TWO_64 - 1 && SumOfDeltas([a]) == 1;
  }

  lemma TwoTicks(c: Clock, t: U64, u: U64)
    ensures TickAll(c, [t, u]) == c.Tick(t).Tick(u)
  {
    assert [t, u][1..] == [u] && [u][1..] == [];
    assert TickAll(c.Tick(t), [u]) == c.Tick(t).Tick(u);
  }

  /**
   * A wire stream that loses time: after a delta of one tick, one of eight bytes 0xff, as long as a delta can be.  The
   * clock of a capture that started on a second is back at its start, 2^64 ticks late.
   */
  lemma LongestDeltaLosesTime(sec: U32, a: WirePacket, b: WirePacket)
    requires a.Valid() && b.Valid() && a.delta == [1] && b.delta == AllOnes(8)
    ensures SumOfDeltas([a, b]) == TWO_64
    ensures TickAll(StartClock(sec, 0), Timestamps(Sent([a, b]))) == Clock(sec, 0, 0) != At(sec, TWO_64, 0)
  {
    LongestDelta();
    assert [1][1..] == [] && LittleEndian([1]) == 1;
    TwoPackets(a, b);
    TwoTicks(StartClock(sec, 0), 1, 0);
    FirstTick(sec);
    BackwardTickDrifts(sec);
  }

  // ---------------------------------------------------------------- the tool

  /** Delivers `p` in the shared packet, overwriting what was there. */
  method Overwrite(packet: OvPacket, p: Packet)
    requires Whole(p) && |p.data| <= packet.data.Length
    modifies packet, packet.data
    ensures packet.Header() == p.header && packet.timestamp == p.timestamp
    ensures packet.data[..p.header.CapturedSize()] == p.data
  {
    packet.magic, packet.flags, packet.size, packet.timestamp :=
      p.header.magic, p.header.flags, p.header.size, p.timestamp;
    forall i | 0 <= i < |p.data| {
      packet.data[i] := p.data[i];
    }
  }

  /** One packet: delivered in the shared storage, and handled. */
  method DeliverAndHandle(data: HandlerData, packet: OvPacket, p: Packet)
    requires data.Valid() && data.Filtering().Shape()
    requires Whole(p) && |p.data| <= packet.data.Length
    requires packet !in data.Repr && packet.data !in data.Repr
    modifies packet, packet.data, data, data.nodes
    ensures data.Valid() && data.Filtering().Shape() && fresh(data.Repr - old(data.Repr))
    ensures data.Time() == old(data.Time()).Tick(p.timestamp)
    ensures p.header.size == 0 ==> data.Filtering() == old(data.Filtering()) && data.debug == old(data.debug)
    ensures p.header.size > 0 ==>
              var r := Captured(data.Time(), p.header, p.data);
              && data.Filtering() == FilterStep(data.flags, old(data.Filtering()), r)
              && data.debug == old(data.debug) + Record(r)
  {
    Overwrite(packet, p);
    data.PacketHandler(packet);
  }

  /** All packets, delivered and handled one after the other. */
  method HandleAll(data: HandlerData, packet: OvPacket, ps: seq<Packet>)
    requires data.Valid() && data.Filtering() == INITIAL_FILTER && data.debug == []
    requires data.Repr == {} && data.nodes == []
    requires AllWhole(ps) && AllFit(ps, packet.data.Length)
    modifies packet, packet.data, data
    ensures data.Valid()
    ensures
      var records := Handled(old(data.Time()), ps).1;
      data.Filtering() == Filtered(data.flags, records) && data.debug == Records(records)
  {
    ghost var start := data.Time();
    assert ps[..0] == [];
    for i := 0 to |ps|
      invariant data.Valid() && data.Filtering().Shape() && fresh(data.Repr)
      invariant Handled(start, ps[..i]).0 == data.Time()
      invariant
        var records := Handled(start, ps[..i]).1;
        data.Filtering() == Filtered(data.flags, records) && data.debug == Records(records)
    {
      assert ps[..i + 1][..i] == ps[..i];
      ghost var records := Handled(start, ps[..i]).1;
      DeliverAndHandle(data, packet, ps[i]);
      if ps[i].header.size > 0 {
        var r := Captured(data.Time(), ps[i].header, ps[i].data);
        assert (records + [r])[..|records|] == records;
      }
    }
    assert ps[..|ps|] == ps;
  }

  /**
   * A capture of the packets `ps`, all delivered in the one shared `packet`: the debug file has the record of every
   * packet on the wire, and the output those the filter writes.
   */
  method StartCapture(flags: Flags, sec: U32, nsec: U32, packet: OvPacket, ps: seq<Packet>) returns (data: HandlerData)
    requires nsec < NANOS && AllWhole(ps) && AllFit(ps, packet.data.Length)
    modifies packet, packet.data
    ensures fresh(data) && data.Valid()
    ensures data.out == OutputFile(flags, sec, nsec, ps) && data.debug == DebugFile(sec, nsec, ps)
  {
    data := new HandlerData(flags, sec, nsec);
    HandleAll(data, packet, ps);
    data.DiscardQueuedPackets();
  }
}
