/**
 * The last run of a capture: when it ends by the stop that was asked for, and returns what ov_capture_stop looks for.
 */
module StopRun {
  import opened Bytes
  import opened Stream
  import opened DecoderSpec
  import opened Demux
  import opened LoopModel
  import opened LoopRuns
  import opened Handshake

  ghost predicate NoLast(calls: seq<Call>) {
    forall i | 0 <= i < |calls| :: calls[i].PacketCall? ==> !IsLast(calls[i].packet)
  }

  /** Only a host-read-off may have stopped the run, which has no limit. */
  ghost predicate OnlyOff(l: Loop) {
    l.maxCount <= 0 && (l.state == Running || l.state == HostReadOff)
  }

  lemma {:induction false} CallsOnlyOff(cfg: Config, l: Loop, calls: seq<Call>)
    requires NeverBreaks(cfg) && NoLast(calls) && OnlyOff(l)
    ensures OnlyOff(OnCalls(cfg, l, calls))
    decreases |calls|
  {
    if calls != [] {
      CallsOnlyOff(cfg, OnCall(cfg, l, calls[0]), calls[1..]);
    }
  }

  /** What a running loop has still to decode is decoded without an error, to packets that are not the last. */
  ghost predicate SoundRest(l: Loop, rest: seq<Byte>) {
    l.state == Running ==>
      && l.decoder.Some?
      && var o := Run(FrameStep, l.decoder.value, rest);
      && o.Next? && NoLast(o.calls)
  }

  lemma NoLastConcat(a: seq<Call>, b: seq<Call>)
    requires NoLast(a + b)
    ensures NoLast(a) && NoLast(b)
  {
    var ab := a + b;
    assert forall i | 0 <= i < |a| :: ab[i] == a[i];
    assert forall i | 0 <= i < |b| :: ab[|a| + i] == b[i];
  }

  lemma BlockOnlyOff(cfg: Config, l: Loop, block: seq<Byte>, rest: seq<Byte>)
    requires NeverBreaks(cfg) && OnlyOff(l) && l.state == Running && SoundRest(l, block + rest)
    ensures OnlyOff(OnBlock(cfg, l, block)) && SoundRest(OnBlock(cfg, l, block), rest)
  {
    RunConcat(FrameStep, l.decoder.value, block, rest);
    var o := Run(FrameStep, l.decoder.value, block);
    NoLastConcat(o.calls, Run(FrameStep, o.state, rest).calls);
    CallsOnlyOff(cfg, l, o.calls);
  }

  lemma {:induction false} BlocksOnlyOff(cfg: Config, l: Loop, bytes: seq<Byte>, rest: seq<Byte>)
    requires cfg.maxPacketSize > 0 && NeverBreaks(cfg) && OnlyOff(l) && SoundRest(l, Strip(cfg, bytes) + rest)
    ensures OnlyOff(OnBlocks(cfg, l, bytes)) && SoundRest(OnBlocks(cfg, l, bytes), rest)
    decreases |bytes|
  {
    if bytes == [] {
      assert Strip(cfg, bytes) + rest == rest;
    } else if l.state == Running {
      var n := BlockLength(cfg, bytes);
      var later := Strip(cfg, bytes[n..]);
      if n > 2 {
        var block := bytes[2..n];
        assert Payload(bytes[..n]) == block;
        Assoc(block, later, rest);
        BlockOnlyOff(cfg, l, block, later + rest);
        BlocksOnlyOff(cfg, OnBlock(cfg, l, block), bytes[n..], rest);
      } else {
        assert Strip(cfg, bytes) == later;
        BlocksOnlyOff(cfg, l, bytes[n..], rest);
      }
    }
  }

  lemma ReactOnlyOff(cfg: Config, l: Loop, h: Happening, rest: seq<Byte>)
    requires cfg.maxPacketSize > 0 && l.Waiting() && Possible(l, h) && NeverBreaks(cfg)
    requires OnlyOff(l) && SoundRest(l, Received(cfg, [h]) + rest)
    requires Calm(l, h) && !Overwrites(h)
    ensures OnlyOff(React(cfg, l, h)) && SoundRest(React(cfg, l, h), rest)
  {
    if h.Callback? && h.status.Completed? {
      assert Received(cfg, [h]) == Strip(cfg, h.status.bytes);
      BlocksOnlyOff(cfg, TakenBack(l, h.i), h.status.bytes, rest);
    } else {
      assert Received(cfg, [h]) + rest == rest;
    }
  }

  /** Of a run that nothing but its stream stops, and whose reason nothing overwrites. */
  lemma {:induction false} RunOnlyOff(cfg: Config, l: Loop, hs: seq<Happening>)
    requires cfg.maxPacketSize > 0 && l.Waiting() && AllPossible(cfg, l, hs) && NeverBreaks(cfg)
    requires OnlyOff(l) && SoundRest(l, Received(cfg, hs))
    requires Undisturbed(cfg, l, hs) && !Overwritten(hs)
    ensures OnlyOff(Exec(cfg, l, hs))
    decreases |hs|
  {
    if hs != [] {
      ReactWaits(cfg, l, hs[0]);
      ReceivedHead(cfg, hs);
      ReactOnlyOff(cfg, l, hs[0], Received(cfg, hs[1..]));
      assert forall i | 0 <= i < |hs[1..]| :: hs[1..][i] == hs[i + 1];
      RunOnlyOff(cfg, React(cfg, l, hs[0]), hs[1..]);
    }
  }

  /**
   * The run that stops a capture: without a limit and a callback that breaks it, on a stream that holds the echo of
   * the stop message among whole frames and is decoded to packets that are not the last, and if no transfer or poll
   * fails, it ends in the host-read-off, and when it completes it returns -5.
   */
  lemma StopRunResult(
    cfg: Config, l: Loop, limit: int, hs: seq<Happening>, p: PacketState, before: seq<Frame>, after: seq<Byte>)
    requires cfg.maxPacketSize > 0 && cfg.hostReadGo < 0x8000 && NeverBreaks(cfg) && limit <= 0
    requires l.Valid() && l.active == 0 && l.state == Running
    requires l.decoder == Some(FrameState(BetweenFrames, p))
    requires Start(l, limit, TRANSFERS).Waiting() && AllPossible(cfg, Start(l, limit, TRANSFERS), hs)
    requires AllFrames(before)
    requires Received(cfg, hs) == SerialiseAll(before) + (WriteFrame(cfg.hostReadGo, 0).Serialise() + after)
    requires SoundRest(l, Received(cfg, hs))
    requires Undisturbed(cfg, Start(l, limit, TRANSFERS), hs) && !Overwritten(hs)
    ensures Exec(cfg, Start(l, limit, TRANSFERS), hs).state == HostReadOff
    ensures Result(Exec(cfg, Start(l, limit, TRANSFERS), hs)) == -5
  {
    StopEchoEndsRun(cfg, l, limit, TRANSFERS, hs, p, before, after);
    RunOnlyOff(cfg, Start(l, limit, TRANSFERS), hs);
  }
}
