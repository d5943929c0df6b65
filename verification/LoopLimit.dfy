/** The packet limit of a run: exactly which streams take it past the limit, and that there are such runs. */
module LoopLimit {
  import opened Bytes
  import opened Stream
  import opened DecoderSpec
  import opened Wire
  import opened Demux
  import opened Storage
  import opened LoopModel
  import opened LoopRuns

  /** The packets delivered by `calls`. */
  function PacketsOf(calls: seq<Call>): seq<Packet> {
    if calls == [] then []
    else (if calls[0].PacketCall? then [calls[0].packet] else []) + PacketsOf(calls[1..])
  }

  ghost predicate NoHostReadOff(cfg: Config, calls: seq<Call>) {
    forall i | 0 <= i < |calls| :: calls[i].BusCall? ==> !IsHostReadOff(cfg, calls[i].addr, calls[i].value)
  }

  /**
   * The last of the packets `upTo` ends even a run without a limit: the callback breaks at it, or it is flagged LAST.
   */
  predicate Ends(cfg: Config, upTo: seq<Packet>)
    requires upTo != []
  {
    cfg.breaks(upTo) || IsLast(upTo[|upTo| - 1])
  }

  /**
   * After `before`, the first `k` calls bring the packet after the limit; no host-read-off is among them, and no packet
   * up to the limit ends the run.
   */
  ghost predicate PassesLimit(cfg: Config, limit: nat, before: seq<Packet>, calls: seq<Call>, k: nat) {
    && k <= |calls|
    && var ps := before + PacketsOf(calls[..k]);
    && |ps| == limit + 1
    && NoHostReadOff(cfg, calls[..k])
    && forall j | |before| < j <= limit :: !Ends(cfg, ps[..j])
  }

  /** The packets of some more calls. */
  lemma PacketsCons(before: seq<Packet>, calls: seq<Call>, k: nat)
    requires 0 < k <= |calls|
    ensures calls[..k][0] == calls[0] && calls[..k][1..] == calls[1..][..k - 1]
    ensures before + PacketsOf(calls[..k])
         == (if calls[0].PacketCall? then before + [calls[0].packet] else before) + PacketsOf(calls[1..][..k - 1])
  {
    var rest := PacketsOf(calls[1..][..k - 1]);
    assert calls[..k][1..] == calls[1..][..k - 1];
    if calls[0].PacketCall? {
      Assoc(before, [calls[0].packet], rest);
    } else {
      assert PacketsOf(calls[..k]) == [] + rest == rest;
    }
  }

  lemma NoHostReadOffCons(cfg: Config, calls: seq<Call>, k: nat)
    requires 0 < k <= |calls|
    ensures NoHostReadOff(cfg, calls[..k]) <==>
            && (calls[0].BusCall? ==> !IsHostReadOff(cfg, calls[0].addr, calls[0].value))
            && NoHostReadOff(cfg, calls[1..][..k - 1])
  {
    var a, b := calls[..k], calls[1..][..k - 1];
    assert forall i | 0 <= i < |b| :: b[i] == a[i + 1];
    assert forall i | 1 <= i < |a| :: a[i] == b[i - 1];
  }

  lemma {:induction false} PassesAdmits(cfg: Config, limit: nat, before: seq<Packet>, calls: seq<Call>, k: nat)
    requires 0 < limit && |before| <= limit && PassesLimit(cfg, limit, before, calls, k)
    ensures |Admitted(cfg, limit, before, calls)| == limit + 1
    decreases |calls|
  {
    assert calls[..0] == [];
    PacketsCons(before, calls, k);
    NoHostReadOffCons(cfg, calls, k);
    var ps := before + PacketsOf(calls[..k]);
    match calls[0]
    case BusCall(_, _) =>
      PassesAdmits(cfg, limit, before, calls[1..], k - 1);
    case PacketCall(p) =>
      if |before| < limit {
        assert ps[..|before| + 1] == before + [p];
        PassesAdmits(cfg, limit, before + [p], calls[1..], k - 1);
      }
  }

  lemma {:induction false} AdmitsPasses(cfg: Config, limit: nat, before: seq<Packet>, calls: seq<Call>) returns (k: nat)
    requires 0 < limit && |before| <= limit && |Admitted(cfg, limit, before, calls)| == limit + 1
    ensures PassesLimit(cfg, limit, before, calls, k)
    decreases |calls|
  {
    match calls[0]
    case BusCall(_, _) =>
      var k' := AdmitsPasses(cfg, limit, before, calls[1..]);
      k := k' + 1;
      PacketsCons(before, calls, k);
      NoHostReadOffCons(cfg, calls, k);
    case PacketCall(p) =>
      if |before| == limit {
        k := 1;
        PacketsCons(before, calls, k);
        NoHostReadOffCons(cfg, calls, k);
        assert calls[1..][..0] == [];
      } else {
        assert !StopsRun(cfg, limit, before + [p]);
        var k' := AdmitsPasses(cfg, limit, before + [p], calls[1..]);
        k := k' + 1;
        PacketsCons(before, calls, k);
        NoHostReadOffCons(cfg, calls, k);
        assert (before + PacketsOf(calls[..k]))[..|before| + 1] == before + [p];
      }
  }

  /**
   * When a run passes its limit: only if the stream brings one more packet than the limit, before a host-read-off and
   * with no packet up to the limit that ends the run; and if nothing but its stream can stop the run, then exactly if.
   */
  lemma LimitPassedIff(cfg: Config, l: Loop, limit: nat, hs: seq<Happening>)
    requires cfg.maxPacketSize > 0 && limit > 0
    requires l.Valid() && l.active == 0 && l.state == Running
    requires Start(l, limit, TRANSFERS).Waiting() && AllPossible(cfg, Start(l, limit, TRANSFERS), hs)
    ensures
      var accepted := Exec(cfg, Start(l, limit, TRANSFERS), hs).accepted;
      var calls := Run(FrameStep, l.decoder.value, Received(cfg, hs)).calls;
      && |accepted| <= limit + 1
      && (|accepted| == limit + 1 ==> exists k :: PassesLimit(cfg, limit, [], calls, k))
      && (Undisturbed(cfg, Start(l, limit, TRANSFERS), hs) ==>
            (|accepted| == limit + 1 <==> exists k :: PassesLimit(cfg, limit, [], calls, k)))
  {
    var s := Start(l, limit, TRANSFERS);
    var accepted := Exec(cfg, s, hs).accepted;
    var calls := Run(FrameStep, l.decoder.value, Received(cfg, hs)).calls;
    EndToEndDelivery(cfg, l, limit, TRANSFERS, hs);
    AdmittedBound(cfg, limit, [], calls);
    if |accepted| == limit + 1 {
      var k := AdmitsPasses(cfg, limit, [], calls);
    }
    if Undisturbed(cfg, s, hs) {
      UndisturbedDelivery(cfg, l, limit, hs);
      if k: nat :| PassesLimit(cfg, limit, [], calls, k) {
        PassesAdmits(cfg, limit, [], calls, k);
      }
    }
  }

  lemma {:induction false} AdmittedBound(cfg: Config, limit: nat, before: seq<Packet>, calls: seq<Call>)
    requires 0 < limit && |before| <= limit
    ensures |Admitted(cfg, limit, before, calls)| <= limit + 1
    decreases |calls|
  {
    if calls != [] {
      match calls[0]
      case BusCall(_, _) => AdmittedBound(cfg, limit, before, calls[1..]);
      case PacketCall(p) => if |before| < limit { AdmittedBound(cfg, limit, before + [p], calls[1..]); }
    }
  }

  // ---------------------------------------------------------------- a run that passes its limit

  /** Nothing in `calls` but a limit stops a run whose callback does not break. */
  ghost predicate Plain(calls: seq<Call>) {
    forall i | 0 <= i < |calls| :: calls[i].PacketCall? && !IsLast(calls[i].packet)
  }

  ghost predicate OnlyLimit(l: Loop) { l.state == Running || l.state == CountLimit }

  lemma {:induction false} PlainCalls(cfg: Config, l: Loop, calls: seq<Call>)
    requires NeverBreaks(cfg) && Plain(calls) && OnlyLimit(l)
    ensures OnlyLimit(OnCalls(cfg, l, calls))
    decreases |calls|
  {
    if calls != [] {
      PlainCalls(cfg, OnCall(cfg, l, calls[0]), calls[1..]);
    }
  }

  /** The loop decodes `rest` without an error, to plain calls. */
  ghost predicate PlainRest(l: Loop, rest: seq<Byte>) {
    l.state == Running ==>
      && l.decoder.Some?
      && var o := Run(FrameStep, l.decoder.value, rest);
      && o.Next? && Plain(o.calls)
  }

  lemma PlainConcat(a: seq<Call>, b: seq<Call>)
    requires Plain(a + b)
    ensures Plain(a) && Plain(b)
  {
    var ab := a + b;
    assert forall i | 0 <= i < |a| :: ab[i] == a[i];
    assert forall i | 0 <= i < |b| :: ab[|a| + i] == b[i];
  }

  lemma PlainBlock(cfg: Config, l: Loop, block: seq<Byte>, rest: seq<Byte>)
    requires NeverBreaks(cfg) && l.state == Running && PlainRest(l, block + rest)
    ensures OnlyLimit(OnBlock(cfg, l, block)) && PlainRest(OnBlock(cfg, l, block), rest)
  {
    RunConcat(FrameStep, l.decoder.value, block, rest);
    var o := Run(FrameStep, l.decoder.value, block);
    PlainConcat(o.calls, Run(FrameStep, o.state, rest).calls);
    PlainCalls(cfg, l, o.calls);
  }

  lemma {:induction false} PlainBlocks(cfg: Config, l: Loop, bytes: seq<Byte>)
    requires cfg.maxPacketSize > 0 && NeverBreaks(cfg) && OnlyLimit(l) && PlainRest(l, Strip(cfg, bytes))
    ensures OnlyLimit(OnBlocks(cfg, l, bytes))
    decreases |bytes|
  {
    if l.state == Running && bytes != [] {
      var n := BlockLength(cfg, bytes);
      if n > 2 {
        assert Payload(bytes[..n]) == bytes[2..n];
        PlainBlock(cfg, l, bytes[2..n], Strip(cfg, bytes[n..]));
        PlainBlocks(cfg, OnBlock(cfg, l, bytes[2..n]), bytes[n..]);
      } else {
        assert Strip(cfg, bytes) == Strip(cfg, bytes[n..]);
        PlainBlocks(cfg, l, bytes[n..]);
      }
    }
  }

  /** A packet of one byte, six on the wire. */
  const SMALL := WirePacket(0, Header(0xa0, 0, 1), [0], [0])

  function SmallPackets(n: nat): (ws: seq<WirePacket>)
    ensures |ws| == n && forall i | 0 <= i < n :: ws[i] == SMALL
  {
    seq(n, _ => SMALL)
  }

  lemma SmallValid()
    ensures SMALL.Valid() && |Encode(SMALL)| == 6 && SMALL.header.flags == 0
  {
    assert !HasFlag(0, FLAG_TRUNC);
  }

  lemma {:induction false} SmallEven(ws: seq<WirePacket>)
    requires AllValid(ws) && forall i | 0 <= i < |ws| :: ws[i] == SMALL
    ensures |EncodeAll(ws)| % 2 == 0
  {
    if ws != [] {
      SmallValid();
      SmallEven(ws[1..]);
    }
  }

  /** Callbacks of which none is for a bus frame. */
  lemma {:induction false} OnlyPackets(calls: seq<Call>)
    requires BusCallsOf(calls) == []
    ensures PacketCallsOf(calls) == calls
  {
    if calls != [] {
      assert calls[0].PacketCall?;
      OnlyPackets(calls[1..]);
    }
  }

  lemma {:induction false} NoBusCalls(fs: seq<Frame>)
    requires forall i | 0 <= i < |fs| :: fs[i].SdramFrame?
    ensures BusCalls(fs) == []
  {
    if fs != [] { NoBusCalls(fs[1..]); }
  }

  /** A stream that is decoded to any number of small packets. */
  lemma SmallStream(n: nat, clock: U64) returns (stream: seq<Byte>)
    ensures
      var o := Run(FrameStep, FrameState(BetweenFrames, PacketState(Idle, clock)), stream);
      o.Next? && |o.calls| == n && Plain(o.calls)
  {
    var ws, p := SmallPackets(n), PacketState(Idle, clock);
    SmallValid();
    SmallEven(ws);
    var fs := Framing(EncodeAll(ws));
    RoundTrip(ws, 0, clock);
    assert EncodeAll(ws) + Fillers(0) == EncodeAll(ws);
    FramesRun(fs, p);
    DecodeAllSplits(fs, p);
    NoBusCalls(fs);
    OnlyPackets(DecodeAll(fs, p).calls);
    stream := SerialiseAll(fs);
    forall i | 0 <= i < n
      ensures Deliver(clock, ws)[i].PacketCall? && Deliver(clock, ws)[i].packet.header == SMALL.header
    {
      DeliveredTimestamp(clock, ws, i);
    }
  }

  lemma {:induction false} PlainAdmitted(cfg: Config, limit: nat, before: seq<Packet>, calls: seq<Call>)
    requires NeverBreaks(cfg) && Plain(calls) && 0 < limit && |before| <= limit && |before| + |calls| == limit + 1
    ensures |Admitted(cfg, limit, before, calls)| == limit + 1
    decreases |calls|
  {
    if |before| < limit {
      PlainAdmitted(cfg, limit, before + [calls[0].packet], calls[1..]);
    }
  }

  /** One transfer brings one packet more than the limit: the run stops there. */
  lemma LimitStops(cfg: Config, l: Loop, limit: nat, clock: U64) returns (h: Happening)
    requires cfg.maxPacketSize > 2 && NeverBreaks(cfg) && limit > 0
    requires l.Valid() && l.active == 0 && l.state == Running
    requires l.decoder == Some(FrameState(BetweenFrames, PacketState(Idle, clock)))
    ensures Start(l, limit, TRANSFERS).Waiting() && Possible(Start(l, limit, TRANSFERS), h)
    ensures
      var l' := React(cfg, Start(l, limit, TRANSFERS), h);
      && l'.Waiting() && l'.state == CountLimit && |l'.accepted| == limit + 1
      && l'.active == 2 && l'.usb.cancelling == l'.usb.inFlight
  {
    StartWaits(l, limit, TRANSFERS);
    var s := Start(l, limit, TRANSFERS);
    var stream := SmallStream(limit + 1, clock);
    var blocks := Cut(cfg, stream);
    StripUndoesFramed(cfg, blocks);
    h := Callback(0, Completed(Transfer(blocks)), true);
    assert 0 in Transfers();
    ReactWaits(cfg, s, h);
    var back := TakenBack(s, 0);
    PlainBlocks(cfg, back, Transfer(blocks));
    BlocksDeliver(cfg, true, back, l.decoder.value, [], Transfer(blocks));
    assert [] + stream == stream;
    PlainAdmitted(cfg, limit, [], Run(FrameStep, l.decoder.value, stream).calls);
    BlocksKeep(cfg, back, Transfer(blocks));
  }

  /** There is a run for every limit that passes it, completes, and returns one more than the limit. */
  lemma LimitIsPassed(cfg: Config, l: Loop, limit: nat, clock: U64) returns (hs: seq<Happening>)
    requires cfg.maxPacketSize > 2 && NeverBreaks(cfg) && limit > 0
    requires l.Valid() && l.active == 0 && l.state == Running
    requires l.decoder == Some(FrameState(BetweenFrames, PacketState(Idle, clock)))
    ensures Start(l, limit, TRANSFERS).Waiting() && AllPossible(cfg, Start(l, limit, TRANSFERS), hs)
    ensures
      var l' := Exec(cfg, Start(l, limit, TRANSFERS), hs);
      l'.complete && l'.state == CountLimit && |l'.accepted| == limit + 1 && Result(l') == limit + 1
  {
    var s := Start(l, limit, TRANSFERS);
    var h := LimitStops(cfg, l, limit, clock);
    var rest := DrainExists(cfg, React(cfg, s, h));
    hs := [h] + rest;
    assert hs[1..] == rest;
    LimitOvershoots(cfg, l, limit, TRANSFERS, hs);
  }

  /**
   * The limit stops the run, but the result does not tell: for every limit there is a run that accepts one packet more
   * than the limit, and then returns -1, because a transfer fails while the run drains.
   */
  lemma LimitIsOverwritten(cfg: Config, l: Loop, limit: nat, clock: U64) returns (h: Happening, hs: seq<Happening>)
    requires cfg.maxPacketSize > 2 && NeverBreaks(cfg) && limit > 0
    requires l.Valid() && l.active == 0 && l.state == Running
    requires l.decoder == Some(FrameState(BetweenFrames, PacketState(Idle, clock)))
    ensures Start(l, limit, TRANSFERS).Waiting() && Possible(Start(l, limit, TRANSFERS), h)
    ensures React(cfg, Start(l, limit, TRANSFERS), h).state == CountLimit
    ensures AllPossible(cfg, Start(l, limit, TRANSFERS), [h] + hs)
    ensures
      var l' := Exec(cfg, Start(l, limit, TRANSFERS), [h] + hs);
      l'.complete && |l'.accepted| == limit + 1 && Result(l') == -1
  {
    var s := Start(l, limit, TRANSFERS);
    h := LimitStops(cfg, l, limit, clock);
    var stopped := React(cfg, s, h);
    var i :| i in stopped.usb.inFlight;
    var fault := Callback(i, Failed, false);
    ReactWaits(cfg, stopped, fault);
    var rest := DrainExists(cfg, React(cfg, stopped, fault));
    hs := [fault] + rest;
    assert hs[1..] == rest && ([h] + hs)[1..] == hs;
  }
}
