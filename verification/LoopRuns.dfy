/** What holds over whole runs of the capture loop. */
module LoopRuns {
  import opened Bytes
  import opened Stream
  import opened DecoderSpec
  import opened Demux
  import opened LoopModel

  function Exec(cfg: Config, l: Loop, hs: seq<Happening>): Loop
    requires cfg.maxPacketSize > 0 && l.Waiting() && AllPossible(cfg, l, hs)
    decreases |hs|
  {
    if hs == [] then l
    else
      ReactWaits(cfg, l, hs[0]);
      Exec(cfg, React(cfg, l, hs[0]), hs[1..])
  }

  ghost predicate AllPossible(cfg: Config, l: Loop, hs: seq<Happening>)
    requires cfg.maxPacketSize > 0 && l.Waiting()
    decreases |hs|
  {
    hs == [] || (Possible(l, hs[0]) && (ReactWaits(cfg, l, hs[0]); AllPossible(cfg, React(cfg, l, hs[0]), hs[1..])))
  }

  // ---------------------------------------------------------------- one step

  /** What a stopped loop keeps: it stays stopped and accepts nothing. */
  ghost predicate StaysStopped(l: Loop, l': Loop) {
    l.state != Running ==> l'.state != Running && l'.accepted == l.accepted && l'.count == l.count
  }

  /**
   * What the decoder's callbacks may do to the transfers: at most have all of them cancelled, and then the loop
   * stops.
   */
  ghost predicate OnlyCancels(l: Loop, l': Loop) {
    && l'.active == l.active && l'.complete == l.complete && l'.maxCount == l.maxCount
    && l'.usb.inFlight == l.usb.inFlight
    && (l'.usb.cancelling == l.usb.cancelling || (l'.usb.cancelling == l.usb.inFlight && l'.state != Running))
    && StaysStopped(l, l')
  }

  lemma {:induction false} CallsKeep(cfg: Config, l: Loop, calls: seq<Call>)
    ensures OnlyCancels(l, OnCalls(cfg, l, calls))
    ensures OnCalls(cfg, l, calls).decoder == l.decoder
    decreases |calls|
  {
    if calls != [] {
      CallsKeep(cfg, OnCall(cfg, l, calls[0]), calls[1..]);
    }
  }

  lemma {:induction false} BlocksKeep(cfg: Config, l: Loop, bytes: seq<Byte>)
    requires cfg.maxPacketSize > 0
    requires l.state == Running ==> l.decoder.Some?
    ensures
      var l' := OnBlocks(cfg, l, bytes);
      OnlyCancels(l, l') && (l'.state == Running ==> l'.decoder.Some?)
    decreases |bytes|
  {
    if l.state == Running && bytes != [] {
      var n := BlockLength(cfg, bytes);
      if n > 2 {
        CallsKeep(cfg, l, Run(FrameStep, l.decoder.value, bytes[2..n]).calls);
        BlocksKeep(cfg, OnBlock(cfg, l, bytes[2..n]), bytes[n..]);
      } else {
        BlocksKeep(cfg, l, bytes[n..]);
      }
    }
  }

  /** A loop that has stopped has asked libusb to cancel all it still holds. */
  ghost predicate AskedToCancel(l: Loop) {
    l.state != Running ==> l.usb.cancelling == l.usb.inFlight
  }

  /** In-flight accounting: every happening keeps the books; and when the loop stops, the transfers are cancelled. */
  lemma ReactWaits(cfg: Config, l: Loop, h: Happening)
    requires cfg.maxPacketSize > 0 && l.Waiting() && Possible(l, h)
    ensures React(cfg, l, h).Waiting()
    ensures StaysStopped(l, React(cfg, l, h))
    ensures React(cfg, l, h).maxCount == l.maxCount
    ensures l.state != Running && h.Callback? ==>
              var l' := React(cfg, l, h);
              && l'.usb.inFlight == l.usb.inFlight - {h.i}
              && l'.active == l.active - 1 && l'.complete == (l.active == 1)
    ensures (h.Callback? && h.status.Completed?) || h.Break? ==> AskedToCancel(React(cfg, l, h))
    ensures !h.Callback? ==> React(cfg, l, h).usb.inFlight == l.usb.inFlight && React(cfg, l, h).complete == l.complete
  {
    if h.Callback? && h.status.Completed? {
      var back := TakenBack(l, h.i);
      BlocksKeep(cfg, back, h.status.bytes);
    }
  }

  /**
   * A failed transfer or a failing poll stops a running loop, but cancels nothing: transfers stay in flight, and the
   * run waits for one of them to be called back by itself.
   */
  lemma FaultCancelsNothing(cfg: Config, l: Loop, h: Happening)
    requires cfg.maxPacketSize > 0 && l.Waiting() && Possible(l, h) && l.state == Running
    requires h.PollFails? || (h.Callback? && h.status.Failed?)
    ensures
      var l' := React(cfg, l, h);
      l'.state == FatalError && l'.usb.cancelling == {} && l'.usb.inFlight != {} && !l'.complete
  {
    assert 0 in Transfers() && 1 in Transfers();
    var other := if h.Callback? && h.i == 0 then 1 else 0;
    assert other in React(cfg, l, h).usb.inFlight;
    ReactWaits(cfg, l, h);
  }

  /** A resubmission that fails stops the loop with a fatal error, where one that succeeds leaves it running. */
  lemma RefusedResubmission(cfg: Config, l: Loop, i: nat, bytes: seq<Byte>)
    requires cfg.maxPacketSize > 0 && l.Waiting() && i in l.usb.inFlight && l.state == Running
    requires React(cfg, l, Callback(i, Completed(bytes), true)).state == Running
    ensures React(cfg, l, Callback(i, Completed(bytes), false)).state == FatalError
  {
  }

  lemma StartWaits(l: Loop, count: int, first: nat)
    requires l.Valid() && l.active == 0 && l.state != FatalError && first <= TRANSFERS
    ensures Start(l, count, first).Waiting()
    ensures !Start(l, count, first).complete && Start(l, count, first).active == first
    ensures Start(l, count, first).state == Running <==> l.state == Running && first == TRANSFERS
    ensures Start(l, count, first).state == if first < 3 then FatalError else l.state
    ensures AskedToCancel(Start(l, count, first))
  {
    FirstTransfersSize(first);
  }

  /** A loop with a fatal error is not started: only its counters are reset. */
  lemma FatalNotStarted(l: Loop, count: int, first: nat)
    requires l.state == FatalError && first <= TRANSFERS
    ensures
      var l' := Start(l, count, first);
      && l'.state == FatalError && l'.usb == l.usb && l'.active == l.active && l'.decoder == l.decoder
      && l'.count == 0 && l'.maxCount == count && !l'.complete && l'.accepted == []
    ensures Result(Start(l, count, first)) == -1
  {
  }

  // ---------------------------------------------------------------- draining

  function Callbacks(hs: seq<Happening>): nat {
    if hs == [] then 0 else (if hs[0].Callback? then 1 else 0) + Callbacks(hs[1..])
  }

  /** Whenever the wait ends, the two closing assertions of the run hold and nothing is in flight. */
  lemma {:induction false} InFlightAccounting(cfg: Config, l: Loop, hs: seq<Happening>)
    requires cfg.maxPacketSize > 0 && l.Waiting() && AllPossible(cfg, l, hs)
    ensures Exec(cfg, l, hs).Waiting()
    ensures Exec(cfg, l, hs).maxCount == l.maxCount
    ensures Exec(cfg, l, hs).complete ==>
              Exec(cfg, l, hs).state != Running && Exec(cfg, l, hs).active == 0 && Exec(cfg, l, hs).usb.inFlight == {}
    decreases |hs|
  {
    if hs == [] {
      assert 0 in Transfers();
    } else {
      ReactWaits(cfg, l, hs[0]);
      InFlightAccounting(cfg, React(cfg, l, hs[0]), hs[1..]);
    }
  }

  /**
   * A stopped run stays stopped, accepts nothing and resubmits nothing; every callback takes a transfer away,
   * so there are at most three, and the last one completes the run.
   */
  lemma {:induction false} Drain(cfg: Config, l: Loop, hs: seq<Happening>)
    requires cfg.maxPacketSize > 0 && l.Waiting() && AllPossible(cfg, l, hs)
    requires l.state != Running
    ensures
      var l' := Exec(cfg, l, hs);
      && StaysStopped(l, l')
      && l'.usb.inFlight <= l.usb.inFlight
      && l'.active == l.active - Callbacks(hs)
      && Callbacks(hs) <= l.active <= TRANSFERS
      && l'.complete == (l.complete || (0 < Callbacks(hs) == l.active))
    decreases |hs|
  {
    if hs == [] {
      AtMostThree(l);
    } else {
      ReactWaits(cfg, l, hs[0]);
      Drain(cfg, React(cfg, l, hs[0]), hs[1..]);
      AtMostThree(l);
    }
  }

  lemma AtMostThree(l: Loop)
    requires l.Valid()
    ensures 0 <= l.active <= TRANSFERS
  {
    SubsetSize(l.usb.inFlight, Transfers());
    FirstTransfersSize(TRANSFERS);
  }

  lemma {:induction false} SubsetSize(a: set<nat>, b: set<nat>)
    requires a <= b
    ensures |a| <= |b|
    decreases |a|
  {
    if a != {} {
      var x :| x in a;
      SubsetSize(a - {x}, b - {x});
    }
  }

  /** Cancelled transfers called back one by one: a way for a broken-off run to complete. */
  lemma {:induction false} DrainExists(cfg: Config, l: Loop) returns (hs: seq<Happening>)
    requires cfg.maxPacketSize > 0 && l.Waiting()
    requires l.state != Running && l.usb.cancelling == l.usb.inFlight && l.active > 0
    ensures AllPossible(cfg, l, hs) && Exec(cfg, l, hs).complete
    ensures Exec(cfg, l, hs).state == l.state && Exec(cfg, l, hs).accepted == l.accepted
    decreases l.active
  {
    var i :| i in l.usb.inFlight;
    var h := Callback(i, Cancelled, false);
    ReactWaits(cfg, l, h);
    var l' := React(cfg, l, h);
    if l.active == 1 {
      hs := [h];
      assert hs[1..] == [];
    } else {
      var rest := DrainExists(cfg, l');
      hs := [h] + rest;
      assert hs[1..] == rest;
    }
  }

  /** With no transfer in flight nothing ever sets `complete`. */
  lemma {:induction false} NeverCompletes(cfg: Config, l: Loop, hs: seq<Happening>)
    requires cfg.maxPacketSize > 0 && l.Waiting() && AllPossible(cfg, l, hs)
    requires l.active == 0 && !l.complete
    ensures !Exec(cfg, l, hs).complete
    decreases |hs|
  {
    if hs != [] {
      assert l.usb.inFlight == {};
      ReactWaits(cfg, l, hs[0]);
      NeverCompletes(cfg, React(cfg, l, hs[0]), hs[1..]);
    }
  }

  ghost predicate CanComplete(cfg: Config, l: Loop)
    requires cfg.maxPacketSize > 0 && l.Waiting()
  {
    exists hs :: AllPossible(cfg, l, hs) && Exec(cfg, l, hs).complete
  }

  /** A run can end iff its first submission succeeded: otherwise the wait loop never leaves. */
  lemma RunCanEndIff(cfg: Config, l: Loop, count: int, first: nat)
    requires cfg.maxPacketSize > 0
    requires l.Valid() && l.active == 0 && l.state != FatalError && first <= TRANSFERS
    ensures Start(l, count, first).Waiting()
    ensures CanComplete(cfg, Start(l, count, first)) <==> first > 0
  {
    StartWaits(l, count, first);
    var s := Start(l, count, first);
    if first == 0 {
      forall hs | AllPossible(cfg, s, hs)
        ensures !Exec(cfg, s, hs).complete
      {
        NeverCompletes(cfg, s, hs);
      }
    } else {
      ReactWaits(cfg, s, Break);
      var rest := DrainExists(cfg, React(cfg, s, Break));
      var hs := [Break] + rest;
      assert hs[1..] == rest;
      assert AllPossible(cfg, s, hs) && Exec(cfg, s, hs).complete;
    }
  }

  // ---------------------------------------------------------------- the packet limit

  /** `count` counts the accepted packets when there is a limit, and the limit stops the run at the packet after it. */
  ghost predicate Counts(l: Loop) {
    && (l.maxCount > 0 ==> l.count == |l.accepted|)
    && (l.maxCount <= 0 ==> l.count == 0)
    && (l.state == Running && l.maxCount > 0 ==> |l.accepted| <= l.maxCount)
    && (l.state == CountLimit ==> l.maxCount > 0 && |l.accepted| == l.maxCount + 1)
  }

  lemma {:induction false} CallsCount(cfg: Config, l: Loop, calls: seq<Call>)
    requires Counts(l)
    ensures Counts(OnCalls(cfg, l, calls))
    decreases |calls|
  {
    if calls != [] {
      CallsCount(cfg, OnCall(cfg, l, calls[0]), calls[1..]);
    }
  }

  lemma {:induction false} BlocksCount(cfg: Config, l: Loop, bytes: seq<Byte>)
    requires cfg.maxPacketSize > 0 && Counts(l)
    requires l.state == Running ==> l.decoder.Some?
    ensures Counts(OnBlocks(cfg, l, bytes))
    decreases |bytes|
  {
    if l.state == Running && bytes != [] {
      var n := BlockLength(cfg, bytes);
      if n > 2 {
        CallsCount(cfg, l, Run(FrameStep, l.decoder.value, bytes[2..n]).calls);
        BlocksCount(cfg, OnBlock(cfg, l, bytes[2..n]), bytes[n..]);
      } else {
        BlocksCount(cfg, l, bytes[n..]);
      }
    }
  }

  lemma ReactCounts(cfg: Config, l: Loop, h: Happening)
    requires cfg.maxPacketSize > 0 && l.Waiting() && Possible(l, h) && Counts(l)
    ensures Counts(React(cfg, l, h))
  {
    if h.Callback? && h.status.Completed? {
      BlocksCount(cfg, TakenBack(l, h.i), h.status.bytes);
    }
  }

  lemma {:induction false} RunCounts(cfg: Config, l: Loop, hs: seq<Happening>)
    requires cfg.maxPacketSize > 0 && l.Waiting() && AllPossible(cfg, l, hs)
    requires Counts(l)
    ensures Counts(Exec(cfg, l, hs))
    decreases |hs|
  {
    if hs != [] {
      ReactWaits(cfg, l, hs[0]);
      ReactCounts(cfg, l, hs[0]);
      RunCounts(cfg, React(cfg, l, hs[0]), hs[1..]);
    }
  }

  /**
   * A run that starts running and ends in the state of the packet limit returns the number of packets it accepted,
   * which is one more than the limit.  A loop that did not start running accepts nothing.
   */
  lemma LimitOvershoots(cfg: Config, l: Loop, count: int, first: nat, hs: seq<Happening>)
    requires cfg.maxPacketSize > 0
    requires l.Valid() && l.active == 0 && l.state != FatalError && first <= TRANSFERS
    requires Start(l, count, first).Waiting() && AllPossible(cfg, Start(l, count, first), hs)
    ensures
      var l' := Exec(cfg, Start(l, count, first), hs);
      && (l.state == Running && l'.state == CountLimit ==> Result(l') == |l'.accepted| == count + 1 && count > 0)
      && (l.state != Running ==> l'.accepted == [] && Result(l') <= 0)
  {
    StartWaits(l, count, first);
    var s := Start(l, count, first);
    if l.state == Running {
      RunCounts(cfg, s, hs);
      InFlightAccounting(cfg, s, hs);
    } else {
      Drain(cfg, s, hs);
    }
  }

  /**
   * The result tells the state a run has ended in: it is positive for the packet limit, and otherwise a number of its
   * own, of which callers look for -1, a fatal error, and -5, the stop they asked for.  That need not be the state in
   * which the run stopped (see `ReasonSurvives`).
   */
  lemma ResultTellsState(l: Loop, m: Loop)
    requires Counts(l) && Counts(m) && l.state != Running && m.state != Running
    ensures Result(l) > 0 <==> l.state == CountLimit
    ensures Result(l) == -1 <==> l.state == FatalError
    ensures Result(l) == -2 <==> l.state == BreakLoop
    ensures Result(l) == -4 <==> l.state == EndOfStream
    ensures Result(l) == -5 <==> l.state == HostReadOff
    ensures Result(l) == Result(m) ==> l.state == m.state
  {
  }

  /** Stopped by the data, rather than by USB or by the user between events. */
  predicate StoppedByData(s: LoopState) {
    s in {CountLimit, EndOfStream, HostReadOff}
  }

  /** A happening that sets the state of a loop even when it has stopped. */
  predicate Overwrites(h: Happening) {
    h.PollFails? || h.Break? || (h.Callback? && h.status.Failed?)
  }

  predicate Overwritten(hs: seq<Happening>) {
    exists i | 0 <= i < |hs| :: Overwrites(hs[i])
  }

  lemma ReasonStep(cfg: Config, l: Loop, h: Happening)
    requires cfg.maxPacketSize > 0 && l.Waiting() && Possible(l, h) && l.state != Running
    ensures
      var l' := React(cfg, l, h);
      l'.state == if h.Break? then BreakLoop else if Overwrites(h) then FatalError else l.state
  {
  }

  ghost predicate LastOverwrites(hs: seq<Happening>, i: nat) {
    i < |hs| && Overwrites(hs[i]) && forall j | i < j < |hs| :: !Overwrites(hs[j])
  }

  /** The state that happening leaves a stopped loop in. */
  function OverwrittenState(h: Happening): LoopState { if h.Break? then BreakLoop else FatalError }

  /**
   * While a stopped run drains, the reason why it stopped is overwritten by failed transfers, failing polls and breaks,
   * and by nothing else; so a reason found in the data survives iff there are none.
   */
  lemma {:induction false} ReasonSurvives(cfg: Config, l: Loop, hs: seq<Happening>)
    requires cfg.maxPacketSize > 0 && l.Waiting() && AllPossible(cfg, l, hs)
    requires l.state != Running
    ensures !Overwritten(hs) ==> Exec(cfg, l, hs).state == l.state
    ensures Overwritten(hs) ==> 
              exists i: nat :: LastOverwrites(hs, i) && Exec(cfg, l, hs).state == OverwrittenState(hs[i])
    ensures StoppedByData(l.state) ==> (Exec(cfg, l, hs).state == l.state <==> !Overwritten(hs))
    decreases |hs|
  {
    if hs != [] {
      var l', rest := React(cfg, l, hs[0]), hs[1..];
      ReactWaits(cfg, l, hs[0]);
      ReasonStep(cfg, l, hs[0]);
      ReasonSurvives(cfg, l', rest);
      assert forall i | 1 <= i < |hs| :: hs[i] == rest[i - 1];
      if Overwritten(rest) {
        var i: nat :| LastOverwrites(rest, i) && Exec(cfg, l', rest).state == OverwrittenState(rest[i]);
        assert LastOverwrites(hs, i + 1);
      } else if Overwrites(hs[0]) {
        assert LastOverwrites(hs, 0);
      }
    }
  }

  /**
   * So does its result, of which callers look for -1 and -5; else the result is that of a fatal error or of a break.
   */
  lemma ResultSurvives(cfg: Config, l: Loop, hs: seq<Happening>)
    requires cfg.maxPacketSize > 0 && l.Waiting() && AllPossible(cfg, l, hs)
    requires StoppedByData(l.state) && Counts(l)
    ensures Result(Exec(cfg, l, hs)) == Result(l) <==> !Overwritten(hs)
    ensures Overwritten(hs) ==> Result(Exec(cfg, l, hs)) in {-1, -2}
  {
    ReasonSurvives(cfg, l, hs);
    Drain(cfg, l, hs);
    RunCounts(cfg, l, hs);
    ResultTellsState(l, Exec(cfg, l, hs));
  }

  /** Callback `i` is for a host-read-off: a 0 for that register, whatever the write bit. */
  predicate IsHostReadOffAt(cfg: Config, calls: seq<Call>, i: nat) {
    i < |calls| && calls[i].BusCall? && calls[i].addr % 0x8000 == cfg.hostReadGo && calls[i].value == 0
  }

  /** The rest of a block that has stopped the loop: only a host-read-off overwrites the reason. */
  lemma {:induction false} StoppedCalls(cfg: Config, l: Loop, calls: seq<Call>)
    requires l.state != Running
    ensures OnCalls(cfg, l, calls).state
         == if exists i :: IsHostReadOffAt(cfg, calls, i) then HostReadOff else l.state
    decreases |calls|
  {
    if calls != [] {
      StoppedCalls(cfg, OnCall(cfg, l, calls[0]), calls[1..]);
      var off := IsHostReadOffAt(cfg, calls, 0);
      assert forall i: nat | i > 0 :: IsHostReadOffAt(cfg, calls, i) == IsHostReadOffAt(cfg, calls[1..], i - 1);
      if i: nat :| IsHostReadOffAt(cfg, calls[1..], i) {
        assert IsHostReadOffAt(cfg, calls, i + 1);
      }
    }
  }

  // ---------------------------------------------------------------- delivery

  /** The bytes the completed transfers brought, in the order of their callbacks, without FTDI headers. */
  function Received(cfg: Config, hs: seq<Happening>): seq<Byte>
    requires cfg.maxPacketSize > 0
  {
    if hs == [] then []
    else
      (if hs[0].Callback? && hs[0].status.Completed? then Strip(cfg, hs[0].status.bytes) else [])
      + Received(cfg, hs[1..])
  }

  /** The device's last packet: bit 5 of its flags is set. */
  predicate IsLast(p: Packet) { p.header.flags / 0x20 % 2 == 1 }

  /** A packet that stops the run that has accepted `upTo`, it being the last of them. */
  predicate StopsRun(cfg: Config, maxCount: int, upTo: seq<Packet>)
    requires upTo != []
  {
    || cfg.breaks(upTo)
    || (maxCount > 0 && |upTo| > maxCount)
    || IsLast(upTo[|upTo| - 1])
  }

  /**
   * The packets a run takes out of `calls` when it has accepted `before`: up to the first that stops it, or a host-
   * read-off.
   */
  function Admitted(cfg: Config, maxCount: int, before: seq<Packet>, calls: seq<Call>): seq<Packet>
    decreases |calls|
  {
    if calls == [] then before
    else
      match calls[0]
      case BusCall(addr, value) =>
        if IsHostReadOff(cfg, addr, value) then before else Admitted(cfg, maxCount, before, calls[1..])
      case PacketCall(p) =>
        if StopsRun(cfg, maxCount, before + [p]) then before + [p]
        else Admitted(cfg, maxCount, before + [p], calls[1..])
  }

  /** Some call in `calls` stops the run. */
  predicate Halts(cfg: Config, maxCount: int, before: seq<Packet>, calls: seq<Call>)
    decreases |calls|
  {
    calls != [] &&
    match calls[0]
    case BusCall(addr, value) => IsHostReadOff(cfg, addr, value) || Halts(cfg, maxCount, before, calls[1..])
    case PacketCall(p) => StopsRun(cfg, maxCount, before + [p]) || Halts(cfg, maxCount, before + [p], calls[1..])
  }

  function AsCalls(ps: seq<Packet>): seq<Call> {
    seq(|ps|, i requires 0 <= i < |ps| => PacketCall(ps[i]))
  }

  lemma {:induction false} AdmittedConcat(cfg: Config, maxCount: int, before: seq<Packet>, a: seq<Call>, b: seq<Call>)
    ensures Halts(cfg, maxCount, before, a) ==>
              && Halts(cfg, maxCount, before, a + b)
              && Admitted(cfg, maxCount, before, a + b) == Admitted(cfg, maxCount, before, a)
    ensures !Halts(cfg, maxCount, before, a) ==>
              var mid := Admitted(cfg, maxCount, before, a);
              && Halts(cfg, maxCount, before, a + b) == Halts(cfg, maxCount, mid, b)
              && Admitted(cfg, maxCount, before, a + b) == Admitted(cfg, maxCount, mid, b)
    decreases |a|
  {
    if a == [] {
      assert a + b == b;
    } else {
      assert (a + b)[1..] == a[1..] + b;
      match a[0]
      case BusCall(_, _) => AdmittedConcat(cfg, maxCount, before, a[1..], b);
      case PacketCall(p) => AdmittedConcat(cfg, maxCount, before + [p], a[1..], b);
    }
  }

  /**
   * Admitted packets are a prefix of the decoded ones; all of them unless something stops the run; and only the last
   * may stop it.
   */
  lemma {:induction false} AdmittedIsPrefix(cfg: Config, maxCount: int, before: seq<Packet>, calls: seq<Call>)
    ensures
      var got := Admitted(cfg, maxCount, before, calls);
      && before <= got
      && AsCalls(got) <= AsCalls(before) + PacketCallsOf(calls)
      && (!Halts(cfg, maxCount, before, calls) ==> AsCalls(got) == AsCalls(before) + PacketCallsOf(calls))
      && (forall k | |before| < k < |got| :: !StopsRun(cfg, maxCount, got[..k]))
    decreases |calls|
  {
    if calls != [] {
      match calls[0]
      case BusCall(addr, value) =>
        if !IsHostReadOff(cfg, addr, value) { AdmittedIsPrefix(cfg, maxCount, before, calls[1..]); }
      case PacketCall(p) =>
        assert AsCalls(before + [p]) == AsCalls(before) + [calls[0]];
        if !StopsRun(cfg, maxCount, before + [p]) {
          AdmittedIsPrefix(cfg, maxCount, before + [p], calls[1..]);
          var got := Admitted(cfg, maxCount, before, calls);
          assert got[..|before| + 1] == before + [p];
        } else {
          assert AsCalls(before) + PacketCallsOf(calls) == AsCalls(before + [p]) + PacketCallsOf(calls[1..]);
        }
    }
  }

  /** Nothing after a host-read-off is admitted. */
  lemma AdmittedBeforeOff(cfg: Config, maxCount: int, before: seq<Packet>, calls: seq<Call>, i: nat)
    requires IsHostReadOffAt(cfg, calls, i)
    ensures AsCalls(Admitted(cfg, maxCount, before, calls)) <= AsCalls(before) + PacketCallsOf(calls[..i])
  {
    assert calls == calls[..i] + calls[i..];
    AdmittedConcat(cfg, maxCount, before, calls[..i], calls[i..]);
    AdmittedIsPrefix(cfg, maxCount, before, calls[..i]);
  }

  /**
   * The state of a run against the stream `bs` it has received since the decoder was in state `d`; `calm` if nothing
   * but the stream may have stopped it.
   */
  ghost predicate Delivers(cfg: Config, calm: bool, l: Loop, d: FrameState, bs: seq<Byte>) {
    var o := Run(FrameStep, d, bs);
    var halts, admitted := Halts(cfg, l.maxCount, [], o.calls), Admitted(cfg, l.maxCount, [], o.calls);
    && Counts(l)
    && (if l.state == Running then o.Next? && l.decoder == Some(o.state) && !halts && l.accepted == admitted
        else
          && l.accepted <= admitted
          && (StoppedByData(l.state) ==> halts && l.accepted == admitted)
          && (calm ==> (halts || o.Reject?) && l.accepted == admitted))
  }

  /** What the callbacks of one block accept. */
  lemma {:induction false} CallsAdmit(cfg: Config, l: Loop, calls: seq<Call>)
    requires Counts(l) && l.state == Running
    ensures
      var l' := OnCalls(cfg, l, calls);
      && l'.accepted == Admitted(cfg, l.maxCount, l.accepted, calls)
      && (l'.state != Running <==> Halts(cfg, l.maxCount, l.accepted, calls))
    decreases |calls|
  {
    if calls != [] {
      var l1 := OnCall(cfg, l, calls[0]);
      CallsCount(cfg, l, [calls[0]]);
      assert [calls[0]][1..] == [];
      if l1.state == Running {
        CallsAdmit(cfg, l1, calls[1..]);
      } else {
        CallsKeep(cfg, l1, calls[1..]);
      }
    }
  }

  /** Later bytes change nothing for a stopped run. */
  lemma StoppedDelivers(cfg: Config, calm: bool, l: Loop, d: FrameState, bs: seq<Byte>, more: seq<Byte>)
    requires l.state != Running && Delivers(cfg, calm, l, d, bs)
    ensures Delivers(cfg, calm, l, d, bs + more)
  {
    RunConcat(FrameStep, d, bs, more);
    var o := Run(FrameStep, d, bs);
    if o.Next? {
      var later := Run(FrameStep, o.state, more).calls;
      AdmittedConcat(cfg, l.maxCount, [], o.calls, later);
      AdmittedIsPrefix(cfg, l.maxCount, Admitted(cfg, l.maxCount, [], o.calls), later);
    }
  }

  lemma BlockDelivers(cfg: Config, calm: bool, l: Loop, d: FrameState, bs: seq<Byte>, block: seq<Byte>)
    requires l.state == Running && Delivers(cfg, calm, l, d, bs)
    ensures Delivers(cfg, calm, OnBlock(cfg, l, block), d, bs + block)
  {
    RunConcat(FrameStep, d, bs, block);
    var o := Run(FrameStep, l.decoder.value, block);
    CallsCount(cfg, l, o.calls);
    CallsKeep(cfg, l, o.calls);
    CallsAdmit(cfg, l, o.calls);
    AdmittedConcat(cfg, l.maxCount, [], Run(FrameStep, d, bs).calls, o.calls);
  }

  lemma {:induction false} BlocksDeliver(
    cfg: Config, calm: bool, l: Loop, d: FrameState, bs: seq<Byte>, bytes: seq<Byte>)
    requires cfg.maxPacketSize > 0 && Delivers(cfg, calm, l, d, bs)
    ensures Delivers(cfg, calm, OnBlocks(cfg, l, bytes), d, bs + Strip(cfg, bytes))
    decreases |bytes|
  {
    if l.state != Running {
      StoppedDelivers(cfg, calm, l, d, bs, Strip(cfg, bytes));
    } else if bytes == [] {
      assert bs + Strip(cfg, bytes) == bs;
    } else {
      var n := BlockLength(cfg, bytes);
      var rest := Strip(cfg, bytes[n..]);
      if n > 2 {
        var block := bytes[2..n];
        assert Payload(bytes[..n]) == block;
        BlockDelivers(cfg, calm, l, d, bs, block);
        BlocksDeliver(cfg, calm, OnBlock(cfg, l, block), d, bs + block, bytes[n..]);
        Assoc(bs, block, rest);
      } else {
        BlocksDeliver(cfg, calm, l, d, bs, bytes[n..]);
        assert Strip(cfg, bytes) == rest;
      }
    }
  }

  /** The user's callback does not break the loop, or there is none. */
  ghost predicate NeverBreaks(cfg: Config) {
    forall ps :: !cfg.breaks(ps)
  }

  /**
   * Nothing but the stream can stop a running loop: transfers complete and are resubmitted, and polling does not
   * fail.
   */
  predicate Calm(l: Loop, h: Happening) {
    l.state == Running ==> h.PollIdle? || (h.Callback? && h.status.Completed? && h.resubmits)
  }

  /** For as long as the run is running. */
  ghost predicate Undisturbed(cfg: Config, l: Loop, hs: seq<Happening>)
    requires cfg.maxPacketSize > 0 && l.Waiting() && AllPossible(cfg, l, hs)
    decreases |hs|
  {
    hs == [] || (Calm(l, hs[0]) && (ReactWaits(cfg, l, hs[0]); Undisturbed(cfg, React(cfg, l, hs[0]), hs[1..])))
  }

  /** One happening: the run follows the stream it has received. */
  lemma ReactDelivers(cfg: Config, calm: bool, l: Loop, d: FrameState, bs: seq<Byte>, h: Happening)
    requires cfg.maxPacketSize > 0 && l.Waiting() && Possible(l, h) && Delivers(cfg, calm, l, d, bs)
    requires calm ==> Calm(l, h)
    ensures Delivers(cfg, calm, React(cfg, l, h), d, bs + Received(cfg, [h]))
  {
    if h.Callback? && h.status.Completed? {
      var back := TakenBack(l, h.i);
      BlocksDeliver(cfg, calm, back, d, bs, h.status.bytes);
      assert Received(cfg, [h]) == Strip(cfg, h.status.bytes);
    } else {
      assert bs + Received(cfg, [h]) == bs;
    }
  }

  lemma ReceivedHead(cfg: Config, hs: seq<Happening>)
    requires cfg.maxPacketSize > 0 && hs != []
    ensures Received(cfg, hs) == Received(cfg, [hs[0]]) + Received(cfg, hs[1..])
  {
    assert [hs[0]][1..] == [] && Received(cfg, []) == [];
  }

  lemma ReceivedCons(cfg: Config, bs: seq<Byte>, hs: seq<Happening>)
    requires cfg.maxPacketSize > 0 && hs != []
    ensures bs + Received(cfg, hs) == bs + Received(cfg, [hs[0]]) + Received(cfg, hs[1..])
  {
    ReceivedHead(cfg, hs);
    Assoc(bs, Received(cfg, [hs[0]]), Received(cfg, hs[1..]));
  }

  lemma {:induction false} RunDelivers(
    cfg: Config, calm: bool, l: Loop, d: FrameState, bs: seq<Byte>, hs: seq<Happening>)
    requires cfg.maxPacketSize > 0 && l.Waiting() && AllPossible(cfg, l, hs) && Delivers(cfg, calm, l, d, bs)
    requires calm ==> Undisturbed(cfg, l, hs)
    ensures Delivers(cfg, calm, Exec(cfg, l, hs), d, bs + Received(cfg, hs))
    decreases |hs|
  {
    if hs == [] {
      assert bs + Received(cfg, hs) == bs;
    } else {
      ReactWaits(cfg, l, hs[0]);
      ReactDelivers(cfg, calm, l, d, bs, hs[0]);
      RunDelivers(cfg, calm, React(cfg, l, hs[0]), d, bs + Received(cfg, [hs[0]]), hs[1..]);
      ReceivedCons(cfg, bs, hs);
    }
  }

  /** The packets `ps` are from before any host-read-off in `calls`. */
  ghost predicate NoneAfterOff(cfg: Config, ps: seq<Packet>, calls: seq<Call>) {
    forall i: nat | IsHostReadOffAt(cfg, calls, i) :: AsCalls(ps) <= PacketCallsOf(calls[..i])
  }

  /** What following a stream means for the packets accepted from it. */
  lemma DeliveredPackets(cfg: Config, calm: bool, l: Loop, d: FrameState, bs: seq<Byte>)
    requires Delivers(cfg, calm, l, d, bs)
    ensures
      var decoded := Run(FrameStep, d, bs);
      && AsCalls(l.accepted) <= PacketCallsOf(decoded.calls)
      && l.accepted <= Admitted(cfg, l.maxCount, [], decoded.calls)
      && NoneAfterOff(cfg, l.accepted, decoded.calls)
      && (l.state == Running ==> AsCalls(l.accepted) == PacketCallsOf(decoded.calls))
      && (forall k | 0 < k < |l.accepted| :: !StopsRun(cfg, l.maxCount, l.accepted[..k]))
  {
    var calls := Run(FrameStep, d, bs).calls;
    var admitted := Admitted(cfg, l.maxCount, [], calls);
    AdmittedIsPrefix(cfg, l.maxCount, [], calls);
    assert AsCalls([]) + PacketCallsOf(calls) == PacketCallsOf(calls);
    assert AsCalls(l.accepted) <= AsCalls(admitted);
    forall i: nat | IsHostReadOffAt(cfg, calls, i)
      ensures AsCalls(l.accepted) <= PacketCallsOf(calls[..i])
    {
      AdmittedBeforeOff(cfg, l.maxCount, [], calls, i);
      assert AsCalls([]) + PacketCallsOf(calls[..i]) == PacketCallsOf(calls[..i]);
    }
    assert forall k | 0 < k < |l.accepted| :: l.accepted[..k] == admitted[..k];
  }

  /**
   * End-to-end delivery, for one run: the accepted packets are a prefix of the packets in the received stream, and all
   * of them while it is running.  Whatever stops the run, none comes after the first packet that stops it or after the
   * host-read-off; and when it was the data that stopped it, they are exactly those up to that point.
   */
  lemma EndToEndDelivery(cfg: Config, l: Loop, count: int, first: nat, hs: seq<Happening>)
    requires cfg.maxPacketSize > 0
    requires l.Valid() && l.active == 0 && l.state == Running && first <= TRANSFERS
    requires Start(l, count, first).Waiting() && AllPossible(cfg, Start(l, count, first), hs)
    ensures
      var l' := Exec(cfg, Start(l, count, first), hs);
      var decoded := Run(FrameStep, l.decoder.value, Received(cfg, hs));
      && AsCalls(l'.accepted) <= PacketCallsOf(decoded.calls)
      && l'.accepted <= Admitted(cfg, count, [], decoded.calls)
      && NoneAfterOff(cfg, l'.accepted, decoded.calls)
      && (l'.state == Running ==> decoded.Next? && AsCalls(l'.accepted) == PacketCallsOf(decoded.calls))
      && (StoppedByData(l'.state) ==> l'.accepted == Admitted(cfg, count, [], decoded.calls))
      && (forall k | 0 < k < |l'.accepted| :: !StopsRun(cfg, count, l'.accepted[..k]))
  {
    var s := Start(l, count, first);
    RunDelivers(cfg, false, s, l.decoder.value, [], hs);
    assert [] + Received(cfg, hs) == Received(cfg, hs);
    InFlightAccounting(cfg, s, hs);
    DeliveredPackets(cfg, false, Exec(cfg, s, hs), l.decoder.value, Received(cfg, hs));
  }

  /** A run that nothing but its stream can stop accepts exactly what the stream admits, however it is cut and ends. */
  lemma UndisturbedDelivery(cfg: Config, l: Loop, count: int, hs: seq<Happening>)
    requires cfg.maxPacketSize > 0
    requires l.Valid() && l.active == 0 && l.state == Running
    requires Start(l, count, TRANSFERS).Waiting() && AllPossible(cfg, Start(l, count, TRANSFERS), hs)
    requires Undisturbed(cfg, Start(l, count, TRANSFERS), hs)
    ensures
      var decoded := Run(FrameStep, l.decoder.value, Received(cfg, hs));
      Exec(cfg, Start(l, count, TRANSFERS), hs).accepted == Admitted(cfg, count, [], decoded.calls)
  {
    var s := Start(l, count, TRANSFERS);
    RunDelivers(cfg, true, s, l.decoder.value, [], hs);
    assert [] + Received(cfg, hs) == Received(cfg, hs);
    InFlightAccounting(cfg, s, hs);
  }

  // ---------------------------------------------------------------- FTDI framing

  /** A block of a transfer: two status bytes of the FTDI chip, then data. */
  datatype Block = Block(modem: Byte, line: Byte, data: seq<Byte>)
  {
    function Bytes(): seq<Byte> { [modem, line] + data }
  }

  /** Every block but the last of a transfer has the full size. */
  predicate WellCut(cfg: Config, blocks: seq<Block>) {
    forall i | 0 <= i < |blocks| ::
      var size := |blocks[i].data| + 2;
      if i + 1 < |blocks| then size == cfg.maxPacketSize else size <= cfg.maxPacketSize
  }

  function Transfer(blocks: seq<Block>): seq<Byte> {
    if blocks == [] then [] else blocks[0].Bytes() + Transfer(blocks[1..])
  }

  function Data(blocks: seq<Block>): seq<Byte> {
    if blocks == [] then [] else blocks[0].data + Data(blocks[1..])
  }

  /** Removing two bytes from each block gives back the data, whatever the status bytes are. */
  lemma {:induction false} StripUndoesFramed(cfg: Config, blocks: seq<Block>)
    requires cfg.maxPacketSize > 0 && WellCut(cfg, blocks)
    ensures Strip(cfg, Transfer(blocks)) == Data(blocks)
    decreases |blocks|
  {
    if blocks != [] {
      var block, rest := blocks[0].Bytes(), Transfer(blocks[1..]);
      var bytes := Transfer(blocks);
      assert forall i | 0 <= i < |blocks[1..]| :: blocks[1..][i] == blocks[i + 1];
      StripUndoesFramed(cfg, blocks[1..]);
      assert |blocks| == 1 ==> rest == [];
      assert bytes[..|block|] == block && bytes[|block|..] == rest;
      assert BlockLength(cfg, bytes) == |block|;
      assert Payload(block) == blocks[0].data;
    }
  }

  /** The bytes of the transfers that complete, in order. */
  function CompletedBytes(hs: seq<Happening>): seq<seq<Byte>> {
    if hs == [] then []
    else (if hs[0].Callback? && hs[0].status.Completed? then [hs[0].status.bytes] else []) + CompletedBytes(hs[1..])
  }

  /** The transfers are those in `ts`. */
  ghost predicate Framed(cfg: Config, ts: seq<seq<Block>>, transfers: seq<seq<Byte>>) {
    && |ts| == |transfers|
    && forall i | 0 <= i < |ts| :: WellCut(cfg, ts[i]) && transfers[i] == Transfer(ts[i])
  }

  function AllData(ts: seq<seq<Block>>): seq<Byte> {
    if ts == [] then [] else Data(ts[0]) + AllData(ts[1..])
  }

  /** What a run has received is the data of all blocks of all transfers. */
  lemma {:induction false} ReceivedIsData(cfg: Config, hs: seq<Happening>, ts: seq<seq<Block>>)
    requires cfg.maxPacketSize > 0 && Framed(cfg, ts, CompletedBytes(hs))
    ensures Received(cfg, hs) == AllData(ts)
    decreases |hs|
  {
    if hs != [] {
      if hs[0].Callback? && hs[0].status.Completed? {
        StripUndoesFramed(cfg, ts[0]);
        assert CompletedBytes(hs)[1..] == CompletedBytes(hs[1..]);
        ReceivedIsData(cfg, hs[1..], ts[1..]);
      } else {
        assert CompletedBytes(hs) == CompletedBytes(hs[1..]);
        ReceivedIsData(cfg, hs[1..], ts);
      }
    }
  }

  /** Any stream can be framed. */
  lemma {:induction false} Cut(cfg: Config, stream: seq<Byte>) returns (blocks: seq<Block>)
    requires cfg.maxPacketSize > 2
    ensures WellCut(cfg, blocks) && Data(blocks) == stream
    decreases |stream|
  {
    var n := cfg.maxPacketSize - 2;
    if |stream| <= n {
      blocks := [Block(0, 0, stream)];
      assert blocks[1..] == [] && stream + [] == stream;
    } else {
      var rest := Cut(cfg, stream[n..]);
      blocks := [Block(0, 0, stream[..n])] + rest;
      assert blocks[1..] == rest;
      assert rest != [] by {
        assert Data([]) == [];
      }
      assert forall i | 1 <= i < |blocks| :: blocks[i] == rest[i - 1];
    }
  }
}
