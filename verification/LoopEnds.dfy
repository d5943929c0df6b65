/** The state in which the data leave a run, and its result: what the order of the loop's tests means for whole runs. */
module LoopEnds {
  import opened Bytes
  import opened Stream
  import opened DecoderSpec
  import opened LoopModel
  import opened LoopRuns

  /**
   * The state in which a run is left by the packet that stops it, the last of `got`: LAST overrides the limit, and the
   * limit overrides a break.
   */
  function StopState(limit: int, got: seq<Packet>): LoopState
    requires got != []
  {
    if IsLast(got[|got| - 1]) then EndOfStream
    else if limit > 0 && |got| > limit then CountLimit
    else BreakLoop
  }

  ghost predicate NoOff(cfg: Config, calls: seq<Call>) {
    forall i: nat :: !IsHostReadOffAt(cfg, calls, i)
  }

  lemma NoOffConcat(cfg: Config, a: seq<Call>, b: seq<Call>)
    requires NoOff(cfg, a + b)
    ensures NoOff(cfg, a) && NoOff(cfg, b)
  {
    forall i: nat
      ensures !IsHostReadOffAt(cfg, a, i) && !IsHostReadOffAt(cfg, b, i)
    {
      assert !IsHostReadOffAt(cfg, a + b, i) && !IsHostReadOffAt(cfg, a + b, |a| + i);
    }
  }

  /** One packet given to a running loop. */
  lemma PacketStops(cfg: Config, l: Loop, p: Packet)
    requires Counts(l) && l.state == Running
    ensures
      var got := l.accepted + [p];
      OnPacket(cfg, l, p).state == if StopsRun(cfg, l.maxCount, got) then StopState(l.maxCount, got) else Running
  {
  }

  /** A break in the user's callback has all transfers cancelled at once, before anything else is decoded. */
  lemma BreakCancels(cfg: Config, l: Loop, p: Packet)
    requires l.state == Running && cfg.breaks(l.accepted + [p])
    ensures OnPacket(cfg, l, p).usb.cancelling == l.usb.inFlight && OnPacket(cfg, l, p).state != Running
  {
  }

  /** The callbacks of a block, without a host-read-off, that stop the loop. */
  lemma {:induction false} CallsStop(cfg: Config, l: Loop, calls: seq<Call>)
    requires Counts(l) && l.state == Running && NoOff(cfg, calls)
    requires Halts(cfg, l.maxCount, l.accepted, calls)
    ensures
      var got := Admitted(cfg, l.maxCount, l.accepted, calls);
      got != [] && OnCalls(cfg, l, calls).state == StopState(l.maxCount, got)
    decreases |calls|
  {
    assert calls == [calls[0]] + calls[1..];
    assert !IsHostReadOffAt(cfg, calls, 0);
    NoOffConcat(cfg, [calls[0]], calls[1..]);
    var l1 := OnCall(cfg, l, calls[0]);
    assert [calls[0]][1..] == [] && OnCalls(cfg, l, [calls[0]]) == l1;
    CallsCount(cfg, l, [calls[0]]);
    if calls[0].PacketCall? {
      PacketStops(cfg, l, calls[0].packet);
    }
    if l1.state == Running {
      CallsStop(cfg, l1, calls[1..]);
    } else {
      StoppedCalls(cfg, l1, calls[1..]);
    }
  }

  /** With a host-read-off among them, wherever it is, the loop is left in that state. */
  lemma {:induction false} OffStops(cfg: Config, l: Loop, calls: seq<Call>, i: nat)
    requires IsHostReadOffAt(cfg, calls, i)
    ensures OnCalls(cfg, l, calls).state == HostReadOff
    decreases |calls|
  {
    if i > 0 {
      assert IsHostReadOffAt(cfg, calls[1..], i - 1);
      OffStops(cfg, OnCall(cfg, l, calls[0]), calls[1..], i - 1);
    } else {
      StoppedCalls(cfg, OnCall(cfg, l, calls[0]), calls[1..]);
    }
  }

  /**
   * Why a loop has stopped that has received the stream `bs`: for a decoding error, if nothing before it stops the
   * run; and, when the reason is `kept`, for the packet that stops it, if the stream has neither an error nor a
   * host-read-off.
   */
  ghost predicate Stopped(cfg: Config, kept: bool, l: Loop, d: FrameState, bs: seq<Byte>) {
    var o := Run(FrameStep, d, bs);
    var halts, got := Halts(cfg, l.maxCount, [], o.calls), Admitted(cfg, l.maxCount, [], o.calls);
    l.state != Running ==>
      && (o.Reject? && !halts ==> l.state == FatalError)
      && (kept && o.Next? && NoOff(cfg, o.calls) && halts ==> got != [] && l.state == StopState(l.maxCount, got))
  }

  /** Later bytes give a stopped run no other reason. */
  lemma StoppedLater(cfg: Config, kept: bool, l: Loop, d: FrameState, bs: seq<Byte>, more: seq<Byte>)
    requires l.state != Running && Delivers(cfg, true, l, d, bs) && Stopped(cfg, kept, l, d, bs)
    ensures Stopped(cfg, kept, l, d, bs + more)
  {
    RunConcat(FrameStep, d, bs, more);
    var o := Run(FrameStep, d, bs);
    if o.Next? {
      var later := Run(FrameStep, o.state, more).calls;
      AdmittedConcat(cfg, l.maxCount, [], o.calls, later);
      if NoOff(cfg, o.calls + later) { NoOffConcat(cfg, o.calls, later); }
    }
  }

  lemma BlockStopped(cfg: Config, kept: bool, l: Loop, d: FrameState, bs: seq<Byte>, block: seq<Byte>)
    requires l.state == Running && Delivers(cfg, true, l, d, bs)
    ensures Stopped(cfg, kept, OnBlock(cfg, l, block), d, bs + block)
  {
    RunConcat(FrameStep, d, bs, block);
    var before, o := Run(FrameStep, d, bs).calls, Run(FrameStep, l.decoder.value, block);
    AdmittedConcat(cfg, l.maxCount, [], before, o.calls);
    CallsKeep(cfg, l, o.calls);
    CallsAdmit(cfg, l, o.calls);
    if o.Next? && NoOff(cfg, before + o.calls) && Halts(cfg, l.maxCount, l.accepted, o.calls) {
      NoOffConcat(cfg, before, o.calls);
      CallsStop(cfg, l, o.calls);
    }
  }

  lemma {:induction false} BlocksStopped(
    cfg: Config, kept: bool, l: Loop, d: FrameState, bs: seq<Byte>, bytes: seq<Byte>)
    requires cfg.maxPacketSize > 0 && Delivers(cfg, true, l, d, bs) && Stopped(cfg, kept, l, d, bs)
    ensures Stopped(cfg, kept, OnBlocks(cfg, l, bytes), d, bs + Strip(cfg, bytes))
    decreases |bytes|
  {
    if l.state != Running {
      StoppedLater(cfg, kept, l, d, bs, Strip(cfg, bytes));
    } else if bytes == [] {
      assert bs + Strip(cfg, bytes) == bs;
    } else {
      var n := BlockLength(cfg, bytes);
      var rest := Strip(cfg, bytes[n..]);
      if n > 2 {
        var block := bytes[2..n];
        assert Payload(bytes[..n]) == block;
        BlockDelivers(cfg, true, l, d, bs, block);
        BlockStopped(cfg, kept, l, d, bs, block);
        BlocksStopped(cfg, kept, OnBlock(cfg, l, block), d, bs + block, bytes[n..]);
        Assoc(bs, block, rest);
      } else {
        assert Strip(cfg, bytes) == rest;
        BlocksStopped(cfg, kept, l, d, bs, bytes[n..]);
      }
    }
  }

  /** A happening that leaves a fatal error as it is; and one that leaves every reason as it is. */
  predicate Keeps(kept: bool, h: Happening) {
    !h.Break? && (kept ==> !Overwrites(h))
  }

  predicate AllKeep(kept: bool, hs: seq<Happening>) {
    forall i | 0 <= i < |hs| :: Keeps(kept, hs[i])
  }

  lemma ReactStopped(cfg: Config, kept: bool, l: Loop, d: FrameState, bs: seq<Byte>, h: Happening)
    requires cfg.maxPacketSize > 0 && l.Waiting() && Possible(l, h) && Calm(l, h) && Keeps(kept, h)
    requires Delivers(cfg, true, l, d, bs) && Stopped(cfg, kept, l, d, bs)
    ensures Stopped(cfg, kept, React(cfg, l, h), d, bs + Received(cfg, [h]))
  {
    if h.Callback? && h.status.Completed? {
      assert Received(cfg, [h]) == Strip(cfg, h.status.bytes);
      BlocksStopped(cfg, kept, TakenBack(l, h.i), d, bs, h.status.bytes);
      BlocksKeep(cfg, TakenBack(l, h.i), h.status.bytes);
    } else {
      assert bs + Received(cfg, [h]) == bs;
      if l.state != Running { ReasonStep(cfg, l, h); }
    }
  }

  lemma {:induction false} RunStopped(
    cfg: Config, kept: bool, l: Loop, d: FrameState, bs: seq<Byte>, hs: seq<Happening>)
    requires cfg.maxPacketSize > 0 && l.Waiting() && AllPossible(cfg, l, hs)
    requires Undisturbed(cfg, l, hs) && AllKeep(kept, hs)
    requires Delivers(cfg, true, l, d, bs) && Stopped(cfg, kept, l, d, bs)
    ensures Stopped(cfg, kept, Exec(cfg, l, hs), d, bs + Received(cfg, hs))
    decreases |hs|
  {
    if hs == [] {
      assert bs + Received(cfg, hs) == bs;
    } else {
      ReactWaits(cfg, l, hs[0]);
      ReactDelivers(cfg, true, l, d, bs, hs[0]);
      ReactStopped(cfg, kept, l, d, bs, hs[0]);
      assert forall i | 0 <= i < |hs[1..]| :: hs[1..][i] == hs[i + 1];
      RunStopped(cfg, kept, React(cfg, l, hs[0]), d, bs + Received(cfg, [hs[0]]), hs[1..]);
      ReceivedCons(cfg, bs, hs);
    }
  }

  /** A fresh run, followed to the end. */
  lemma FreshRunStopped(cfg: Config, kept: bool, l: Loop, count: int, hs: seq<Happening>)
    requires cfg.maxPacketSize > 0
    requires l.Valid() && l.active == 0 && l.state == Running
    requires Start(l, count, TRANSFERS).Waiting() && AllPossible(cfg, Start(l, count, TRANSFERS), hs)
    requires Undisturbed(cfg, Start(l, count, TRANSFERS), hs) && AllKeep(kept, hs)
    ensures
      var l' := Exec(cfg, Start(l, count, TRANSFERS), hs);
      && l'.maxCount == count
      && Delivers(cfg, true, l', l.decoder.value, Received(cfg, hs))
      && Stopped(cfg, kept, l', l.decoder.value, Received(cfg, hs))
  {
    var s := Start(l, count, TRANSFERS);
    RunDelivers(cfg, true, s, l.decoder.value, [], hs);
    RunStopped(cfg, kept, s, l.decoder.value, [], hs);
    InFlightAccounting(cfg, s, hs);
    assert [] + Received(cfg, hs) == Received(cfg, hs);
  }

  /**
   * A decoding error is fatal: if the stream is rejected and nothing before that stops the run, then a run that nothing
   * but its stream can stop, and that nobody breaks, ends with a fatal error and returns -1.
   */
  lemma RejectionIsFatal(cfg: Config, l: Loop, count: int, hs: seq<Happening>)
    requires cfg.maxPacketSize > 0
    requires l.Valid() && l.active == 0 && l.state == Running
    requires Start(l, count, TRANSFERS).Waiting() && AllPossible(cfg, Start(l, count, TRANSFERS), hs)
    requires Undisturbed(cfg, Start(l, count, TRANSFERS), hs) && AllKeep(false, hs)
    requires
      var decoded := Run(FrameStep, l.decoder.value, Received(cfg, hs));
      decoded.Reject? && !Halts(cfg, count, [], decoded.calls)
    ensures Exec(cfg, Start(l, count, TRANSFERS), hs).state == FatalError
    ensures Result(Exec(cfg, Start(l, count, TRANSFERS), hs)) == -1
  {
    FreshRunStopped(cfg, false, l, count, hs);
  }

  /** State and result of a run that its last packet has stopped. */
  predicate EndsAsDecided(l: Loop, count: int) {
    var got := l.accepted;
    && got != []
    && (if got[|got| - 1].header.flags / 0x20 % 2 == 1 then l.state == EndOfStream && Result(l) == -4
        else if count > 0 && |got| > count then l.state == CountLimit && Result(l) == |got|
        else l.state == BreakLoop && Result(l) == -2)
  }

  lemma DecidedEnd(l: Loop, count: int)
    requires l.maxCount == count && Counts(l) && l.accepted != [] && l.state == StopState(count, l.accepted)
    ensures EndsAsDecided(l, count)
  {
  }

  /**
   * The packet that stops a run decides how it ends: if the stream has neither an error nor a host-read-off, and
   * nothing else stops the run or overwrites its reason, it returns -4 for a last packet, else the number of packets
   * accepted when that is above the limit, else -2 for the break by the user's callback; and it is running if no
   * packet stops it.
   */
  lemma LastPacketDecides(cfg: Config, l: Loop, count: int, hs: seq<Happening>)
    requires cfg.maxPacketSize > 0
    requires l.Valid() && l.active == 0 && l.state == Running
    requires Start(l, count, TRANSFERS).Waiting() && AllPossible(cfg, Start(l, count, TRANSFERS), hs)
    requires Undisturbed(cfg, Start(l, count, TRANSFERS), hs) && AllKeep(true, hs)
    requires
      var decoded := Run(FrameStep, l.decoder.value, Received(cfg, hs));
      decoded.Next? && NoOff(cfg, decoded.calls)
    ensures
      var l' := Exec(cfg, Start(l, count, TRANSFERS), hs);
      if Halts(cfg, count, [], Run(FrameStep, l.decoder.value, Received(cfg, hs)).calls) then EndsAsDecided(l', count)
      else l'.state == Running
  {
    FreshRunStopped(cfg, true, l, count, hs);
    var l' := Exec(cfg, Start(l, count, TRANSFERS), hs);
    if Halts(cfg, count, [], Run(FrameStep, l.decoder.value, Received(cfg, hs)).calls) {
      DecidedEnd(l', count);
    }
  }
}
