/**
 * The capture loop as src/cha.c writes it: callbacks that update the loop's fields, and the run that submits
 * the transfers and waits.  Each method is proved to do what `LoopModel` says.
 */
module ChaLoop {
  import opened Bytes
  import opened DecoderSpec
  import opened OvPackets
  import opened Decoder
  import opened LoopModel
  import opened LoopRuns
  import opened LoopStorage
  import opened Masks
  import opened Storage

  /** Of a received transfer `bytes`, `rest` is left when the loop has gone from `s` to `now`, and fits. */
  ghost predicate BlocksLeft(cfg: Config, s: Loop, bytes: seq<Byte>, now: Loop, rest: seq<Byte>, capacity: nat)
    requires cfg.maxPacketSize > 0
    requires (s.state == Running ==> s.decoder.Some?) && (now.state == Running ==> now.decoder.Some?)
  {
    OnBlocks(cfg, s, bytes) == OnBlocks(cfg, now, rest) && BlocksFit(cfg, now, rest, capacity)
  }

  lemma BusyInFlight(l: Loop, i: nat)
    requires l.Valid() && i in l.usb.inFlight
    ensures l.active > 0
  {
  }

  lemma BlocksFurther(
    cfg: Config, s: Loop, bytes: seq<Byte>, m: Loop, mid: seq<Byte>, now: Loop, rest: seq<Byte>, capacity: nat)
    requires cfg.maxPacketSize > 0 && (s.state == Running ==> s.decoder.Some?)
    requires (m.state == Running ==> m.decoder.Some?) && (now.state == Running ==> now.decoder.Some?)
    requires BlocksLeft(cfg, s, bytes, m, mid, capacity) && BlocksLeft(cfg, m, mid, now, rest, capacity)
    ensures BlocksLeft(cfg, s, bytes, now, rest, capacity)
  {
  }

  /** When the loop has stopped, or nothing is left. */
  lemma BlocksDone(cfg: Config, s: Loop, bytes: seq<Byte>, now: Loop, rest: seq<Byte>, capacity: nat)
    requires cfg.maxPacketSize > 0
    requires (s.state == Running ==> s.decoder.Some?) && (now.state == Running ==> now.decoder.Some?)
    requires BlocksLeft(cfg, s, bytes, now, rest, capacity) && (now.state != Running || rest == [])
    ensures OnBlocks(cfg, s, bytes) == now
  {
  }

  /** `handled` events of the script have led from `s` to `now`, and the others may follow. */
  ghost predicate Follows(cfg: Config, s: Loop, script: seq<Happening>, handled: nat, now: Loop, capacity: nat)
    requires cfg.maxPacketSize > 0 && handled <= |script|
  {
    && s.Waiting() && now.Waiting()
    && AllPossible(cfg, s, script[..handled]) && AllPossible(cfg, now, script[handled..])
    && now == Exec(cfg, s, script[..handled])
    && RunFits(cfg, now, script[handled..], capacity)
  }

  /** None of the first `handled` events is one that comes after the run is complete. */
  ghost predicate NoneLate(cfg: Config, s: Loop, script: seq<Happening>, handled: nat)
    requires cfg.maxPacketSize > 0 && s.Waiting() && handled <= |script|
  {
    forall k: nat | k < handled && AllPossible(cfg, s, script[..k]) :: !Exec(cfg, s, script[..k]).complete
  }

  /** As before, but the last of them may be a failure that the completing poll returns. */
  ghost predicate HandledInTime(cfg: Config, s: Loop, script: seq<Happening>, handled: nat)
    requires cfg.maxPacketSize > 0 && s.Waiting() && handled <= |script|
  {
    || NoneLate(cfg, s, script, handled)
    || (handled > 0 && script[handled - 1].PollFails? && NoneLate(cfg, s, script, handled - 1))
  }

  lemma NotLate(cfg: Config, s: Loop, script: seq<Happening>, handled: nat)
    requires cfg.maxPacketSize > 0 && s.Waiting() && handled < |script| && AllPossible(cfg, s, script[..handled])
    requires NoneLate(cfg, s, script, handled) && !Exec(cfg, s, script[..handled]).complete
    ensures NoneLate(cfg, s, script, handled + 1)
  {
  }

  lemma FollowsOn(cfg: Config, s: Loop, script: seq<Happening>, handled: nat, now: Loop, capacity: nat)
    requires cfg.maxPacketSize > 0 && handled < |script| && Follows(cfg, s, script, handled, now, capacity)
    ensures Possible(now, script[handled]) && HappeningFits(cfg, now, script[handled], capacity)
    ensures Follows(cfg, s, script, handled + 1, React(cfg, now, script[handled]), capacity)
  {
    var h := script[handled];
    ReactWaits(cfg, now, h);
    assert script[handled..][1..] == script[handled + 1..];
    ExecSnoc(cfg, s, script[..handled], h);
    assert script[..handled] + [h] == script[..handled + 1];
  }

  lemma {:induction false} ExecSnoc(cfg: Config, l: Loop, hs: seq<Happening>, h: Happening)
    requires cfg.maxPacketSize > 0 && l.Waiting() && AllPossible(cfg, l, hs)
    requires Exec(cfg, l, hs).Waiting() && Possible(Exec(cfg, l, hs), h)
    ensures AllPossible(cfg, l, hs + [h])
    ensures Exec(cfg, l, hs + [h]) == React(cfg, Exec(cfg, l, hs), h)
    decreases |hs|
  {
    if hs == [] {
      assert hs + [h] == [h];
      ReactWaits(cfg, l, h);
    } else {
      assert (hs + [h])[0] == hs[0] && (hs + [h])[1..] == hs[1..] + [h];
      ReactWaits(cfg, l, hs[0]);
      ExecSnoc(cfg, React(cfg, l, hs[0]), hs[1..], h);
    }
  }

  lemma CallOfDecoder(cfg: Config, l: Loop, d: Option<FrameState>, c: Call)
    ensures OnCall(cfg, l.(decoder := d), c) == OnCall(cfg, l, c).(decoder := d)
  {
  }

  lemma {:induction false} CallsOfDecoder(cfg: Config, l: Loop, d: Option<FrameState>, calls: seq<Call>)
    ensures OnCalls(cfg, l.(decoder := d), calls) == OnCalls(cfg, l, calls).(decoder := d)
    decreases |calls|
  {
    if calls != [] {
      CallOfDecoder(cfg, l, d, calls[0]);
      CallsOfDecoder(cfg, OnCall(cfg, l, calls[0]), d, calls[1..]);
    }
  }

  class ChaLoop {
    const fd: FrameDecoder
    /** The user's callback in it may be replaced between two runs. */
    var cfg: Config
    var state: LoopState
    var count: int
    var maxCount: int
    var activeTransfers: nat
    var complete: bool
    /** The packets given to the user's callback in this run. */
    var accepted: seq<Packet>
    /** What libusb holds. */
    ghost var inFlight: set<nat>
    ghost var cancelling: set<nat>
    ghost var decoderFailed: bool

    ghost predicate Wellformed()
      reads this, fd, fd.pd, fd.pd.packet
    {
      fd.Valid() && cfg.maxPacketSize > 0 && (state == Running ==> !decoderFailed)
    }

    /** The fields of the loop, for a decoder in state `d`. */
    ghost function Books(d: Option<FrameState>): Loop
      reads this
    {
      Loop(d, state, count, maxCount, activeTransfers, complete, Usb(inFlight, cancelling), accepted)
    }

    ghost function DecoderState(): Option<FrameState>
      requires fd.Valid()
      reads this`decoderFailed, fd, fd.pd, fd.pd.packet, fd.pd.packet.data
    {
      if decoderFailed then None else Some(fd.Abs())
    }

    ghost function Model(): Loop
      requires Wellformed()
      reads this, fd, fd.pd, fd.pd.packet, fd.pd.packet.data
    {
      Books(DecoderState())
    }

    /** The number of data bytes for which the packet has storage. */
    function Capacity(): nat { fd.pd.Capacity() }

    constructor (packet: OvPacket, cfg: Config)
      requires cfg.maxPacketSize > 0
      ensures fresh(fd) && fresh(fd.pd) && fd.pd.packet == packet && this.cfg == cfg
      ensures Wellformed()
      ensures Model() == Loop(Some(INITIAL_STATE), Running, 0, 0, 0, false, Usb({}, {}), [])
    {
      fd := new FrameDecoder(packet);
      this.cfg := cfg;
      state := Running;
      count, maxCount, activeTransfers, complete := 0, 0, 0, false;
      accepted := [];
      inFlight, cancelling, decoderFailed := {}, {}, false;
    }

    method CancelTransfers(ghost d: Option<FrameState>)
      modifies this`cancelling
      ensures Books(d) == CancelAll(old(Books(d)))
    {
      cancelling := inFlight;
    }

    method BreakLoop(ghost d: Option<FrameState>)
      modifies this`state, this`cancelling
      ensures Books(d) == BreakOff(old(Books(d)))
    {
      state := LoopState.BreakLoop;
      CancelTransfers(d);
    }

    method PacketCallback(p: Packet, ghost d: Option<FrameState>)
      modifies this`state, this`cancelling, this`accepted, this`count
      ensures Books(d) == OnPacket(cfg, old(Books(d)), p)
    {
      if state != Running {
        return;
      }
      // The user's callback
      accepted := accepted + [p];
      if cfg.breaks(accepted) {
        BreakLoop(d);
      }
      if maxCount > 0 {
        count := count + 1;
        if count - 1 >= maxCount {
          state := CountLimit;
        }
      }
      assert Pow2(5) == FLAG_LAST;
      var last := TestBit(p.header.flags, 5);
      if last {
        state := EndOfStream;
      }
    }

    method BusFrameCallback(addr: U16, value: Byte, ghost d: Option<FrameState>)
      modifies this`state
      ensures Books(d) == OnCall(cfg, old(Books(d)), BusCall(addr, value))
    {
      var register := ClearWriteBit(addr);
      if register == cfg.hostReadGo && value == 0 {
        state := HostReadOff;
      }
    }

    /** The decoder makes its callbacks. */
    method MakeCalls(calls: seq<Call>, ghost d: Option<FrameState>)
      modifies this`state, this`cancelling, this`accepted, this`count
      ensures Books(d) == OnCalls(cfg, old(Books(d)), calls)
    {
      for i := 0 to |calls|
        invariant OnCalls(cfg, old(Books(d)), calls) == OnCalls(cfg, Books(d), calls[i..])
      {
        match calls[i]
        case PacketCall(p) => PacketCallback(p, d);
        case BusCall(addr, value) => BusFrameCallback(addr, value, d);
      }
    }

    method DecodeBlock(block: seq<Byte>)
      requires Wellformed() && state == Running && StreamFits(fd.Abs(), block, Capacity())
      modifies this`state, this`cancelling, this`accepted, this`count, this`decoderFailed
      modifies fd, fd.pd, fd.pd.packet, fd.pd.packet.data
      ensures Wellformed()
      ensures Model() == OnBlock(cfg, old(Model()), block)
    {
      ghost var l := Model();
      var ret, calls := fd.Proc(block);
      ghost var d := if ret < 0 then None else Some(fd.Abs());
      MakeCalls(calls, d);
      CallsOfDecoder(cfg, l, d, calls);
      if ret < 0 {
        decoderFailed := true;
        state := FatalError;
      }
    }

    /** The block at `offset`, if it is more than its header. */
    method ReceiveBlock(buffer: seq<Byte>, offset: nat) returns (packetLength: nat)
      requires Wellformed() && state == Running && offset < |buffer|
      requires BlocksFit(cfg, Model(), buffer[offset..], Capacity())
      modifies this`state, this`cancelling, this`accepted, this`count, this`decoderFailed
      modifies fd, fd.pd, fd.pd.packet, fd.pd.packet.data
      ensures Wellformed() && 0 < packetLength <= |buffer| - offset
      ensures BlocksLeft(cfg, old(Model()), buffer[offset..], Model(), buffer[offset + packetLength..], Capacity())
    {
      packetLength := if |buffer| - offset < cfg.maxPacketSize then |buffer| - offset else cfg.maxPacketSize;
      assert buffer[offset..][packetLength..] == buffer[offset + packetLength..];
      if packetLength > 2 {
        assert buffer[offset..][2..packetLength] == buffer[offset + 2..offset + packetLength];
        DecodeBlock(buffer[offset + 2..offset + packetLength]);
      }
    }

    /** One turn of the loop over the blocks: from where the loop came from `l`, one block further. */
    method ReceiveTurn(buffer: seq<Byte>, offset: nat, ghost l: Loop) returns (packetLength: nat)
      requires Wellformed() && state == Running && offset < |buffer| && (l.state == Running ==> l.decoder.Some?)
      requires BlocksLeft(cfg, l, buffer, Model(), buffer[offset..], Capacity())
      modifies this`state, this`cancelling, this`accepted, this`count, this`decoderFailed
      modifies fd, fd.pd, fd.pd.packet, fd.pd.packet.data
      ensures Wellformed() && 0 < packetLength <= |buffer| - offset
      ensures BlocksLeft(cfg, l, buffer, Model(), buffer[offset + packetLength..], Capacity())
    {
      ghost var m := Model();
      packetLength := ReceiveBlock(buffer, offset);
      BlocksFurther(cfg, l, buffer, m, buffer[offset..], Model(), buffer[offset + packetLength..], Capacity());
    }

    method ReceiveBlocks(buffer: seq<Byte>)
      requires Wellformed() && BlocksFit(cfg, Model(), buffer, Capacity())
      modifies this`state, this`cancelling, this`accepted, this`count, this`decoderFailed
      modifies fd, fd.pd, fd.pd.packet, fd.pd.packet.data
      ensures Wellformed()
      ensures Model() == OnBlocks(cfg, old(Model()), buffer)
    {
      var offset := 0;
      ghost var l := Model();
      assert buffer[0..] == buffer;
      while state == Running && offset < |buffer|
        invariant 0 <= offset <= |buffer|
        invariant Wellformed() && BlocksLeft(cfg, l, buffer, Model(), buffer[offset..], Capacity())
        decreases |buffer| - offset
      {
        var packetLength := ReceiveTurn(buffer, offset, l);
        offset := offset + packetLength;
      }
      BlocksDone(cfg, l, buffer, Model(), buffer[offset..], Capacity());
    }

    method Drain(ghost d: Option<FrameState>)
      requires activeTransfers > 0
      modifies this`activeTransfers, this`complete
      ensures Books(d) == Drained(old(Books(d)))
    {
      activeTransfers := activeTransfers - 1;
      complete := activeTransfers == 0;
    }

    /** A received transfer: resubmitted, or else all are cancelled and this one is done. */
    method Resubmit(i: nat, resubmits: bool, ghost d: Option<FrameState>)
      requires activeTransfers > 0
      modifies this`state, this`inFlight, this`cancelling, this`activeTransfers, this`complete
      ensures Books(d) == Resubmitted(old(Books(d)), i, resubmits)
    {
      if state == Running {
        if resubmits {
          inFlight := inFlight + {i};
        } else {
          state := FatalError;
        }
      }
      if state != Running {
        CancelTransfers(d);
        Drain(d);
      }
    }

    method TransferCompleted(i: nat, buffer: seq<Byte>, resubmits: bool)
      requires Wellformed() && activeTransfers > 0 && BlocksFit(cfg, Model(), buffer, Capacity())
      modifies this`state, this`count, this`complete, this`accepted, this`activeTransfers
      modifies this`inFlight, this`cancelling, this`decoderFailed
      modifies fd, fd.pd, fd.pd.packet, fd.pd.packet.data
      ensures Wellformed()
      ensures Model() == Resubmitted(OnBlocks(cfg, old(Model()), buffer), i, resubmits)
    {
      BlocksKeep(cfg, Model(), buffer);
      ReceiveBlocks(buffer);
      Resubmit(i, resubmits, DecoderState());
    }

    method TransferFailed(ghost d: Option<FrameState>)
      requires activeTransfers > 0
      modifies this`state, this`activeTransfers, this`complete
      ensures Books(d) == Drained(old(Books(d)).(state := FatalError))
    {
      state := FatalError;
      Drain(d);
    }

    /** libusb has called back about transfer `i`. */
    ghost method TakeBack(i: nat, d: Option<FrameState>)
      modifies this`inFlight, this`cancelling
      ensures Books(d) == TakenBack(old(Books(d)), i)
    {
      inFlight, cancelling := inFlight - {i}, cancelling - {i};
    }

    /** The switch on the status of a transfer. */
    method TransferStatus(i: nat, status: Status, resubmits: bool)
      requires Wellformed() && activeTransfers > 0
      requires status.Completed? ==> BlocksFit(cfg, Model(), status.bytes, Capacity())
      modifies this`state, this`count, this`complete, this`accepted, this`activeTransfers
      modifies this`inFlight, this`cancelling, this`decoderFailed
      modifies fd, fd.pd, fd.pd.packet, fd.pd.packet.data
      ensures Wellformed()
      ensures Model() == OnStatus(cfg, old(Model()), i, status, resubmits)
    {
      match status
      case Completed(buffer) =>
        TransferCompleted(i, buffer, resubmits);
      case Cancelled =>
        Drain(DecoderState());
      case Failed =>
        TransferFailed(DecoderState());
    }

    method TransferCallback(i: nat, status: Status, resubmits: bool)
      requires Wellformed() && activeTransfers > 0
      requires HappeningFits(cfg, Model(), Callback(i, status, resubmits), Capacity())
      modifies this`state, this`count, this`complete, this`accepted, this`activeTransfers
      modifies this`inFlight, this`cancelling, this`decoderFailed
      modifies fd, fd.pd, fd.pd.packet, fd.pd.packet.data
      ensures Wellformed()
      ensures Model() == OnTransfer(cfg, old(Model()), i, status, resubmits)
    {
      ghost var l := Model();
      TakeBack(i, DecoderState());
      assert Model() == TakenBack(l, i);
      TransferStatus(i, status, resubmits);
    }

    /** Submits the transfers in order, up to the first refusal. */
    method SubmitTransfers(first: nat, ghost d: Option<FrameState>)
      requires first <= TRANSFERS
      modifies this`inFlight, this`cancelling, this`activeTransfers
      ensures Books(d) == old(Books(d)).(active := first, usb := Usb(FirstTransfers(first), {}))
    {
      inFlight, cancelling := {}, {};
      activeTransfers := 0;
      while activeTransfers < first
        invariant activeTransfers <= first
        invariant inFlight == FirstTransfers(activeTransfers) && cancelling == {}
      {
        inFlight := inFlight + {activeTransfers};
        activeTransfers := activeTransfers + 1;
      }
    }

    /** The submissions of a run: `first` of them succeed, and the next one, if any, fails. */
    method SubmitAll(first: nat, ghost d: Option<FrameState>)
      requires first <= TRANSFERS
      modifies this`state, this`inFlight, this`cancelling, this`activeTransfers
      ensures Books(d) == Submit(old(Books(d)), first)
    {
      SubmitTransfers(first, d);
      if activeTransfers < TRANSFERS {
        state := FatalError;
      }
      if state != Running {
        CancelTransfers(d);
      }
    }

    method ResetCounters(limit: int, ghost d: Option<FrameState>)
      modifies this`count, this`maxCount, this`complete, this`accepted
      ensures Books(d) == Reset(old(Books(d)), limit)
    {
      count, maxCount, complete, accepted := 0, limit, false, [];
    }

    /** An event that is not a callback. */
    method HandleOther(h: Happening)
      requires Wellformed() && !h.Callback?
      modifies this`state, this`cancelling
      ensures Wellformed()
      ensures Model() == React(cfg, old(Model()), h)
    {
      match h
      case PollFails => state := FatalError;
      case PollIdle =>
      case Break => BreakLoop(DecoderState());
    }

    /** One event while the run waits. */
    method HandleEvent(h: Happening)
      requires Wellformed() && Model().Waiting() && Possible(Model(), h)
      requires HappeningFits(cfg, Model(), h, Capacity())
      modifies this`state, this`count, this`complete, this`accepted, this`activeTransfers
      modifies this`inFlight, this`cancelling, this`decoderFailed
      modifies fd, fd.pd, fd.pd.packet, fd.pd.packet.data
      ensures Wellformed()
      ensures Model() == React(cfg, old(Model()), h)
    {
      if h.Callback? {
        BusyInFlight(Model(), h.i);
        TransferCallback(h.i, h.status, h.resubmits);
      } else {
        HandleOther(h);
      }
    }

    /** One turn of the wait: from where `script[..handled]` has led from `s`, one event further. */
    method WaitTurn(script: seq<Happening>, handled: nat, ghost s: Loop)
      requires Wellformed() && handled < |script| && Follows(cfg, s, script, handled, Model(), Capacity())
      modifies this`state, this`count, this`complete, this`accepted, this`activeTransfers
      modifies this`inFlight, this`cancelling, this`decoderFailed
      modifies fd, fd.pd, fd.pd.packet, fd.pd.packet.data
      ensures Wellformed() && Follows(cfg, s, script, handled + 1, Model(), Capacity())
      ensures !script[handled].Callback? ==> complete == old(complete)
    {
      ReactWaits(cfg, Model(), script[handled]);
      FollowsOn(cfg, s, script, handled, Model(), Capacity());
      HandleEvent(script[handled]);
    }

    /** Events are handled until `complete`, or to the end of the script. */
    method WaitToComplete(script: seq<Happening>, ghost s: Loop) returns (handled: nat)
      requires Wellformed() && s == Model() && s.Waiting() && !complete && AllPossible(cfg, s, script)
      requires RunFits(cfg, s, script, Capacity())
      modifies this`state, this`count, this`complete, this`accepted, this`activeTransfers
      modifies this`inFlight, this`cancelling, this`decoderFailed
      modifies fd, fd.pd, fd.pd.packet, fd.pd.packet.data
      ensures Wellformed() && handled <= |script|
      ensures Follows(cfg, s, script, handled, Model(), Capacity()) && NoneLate(cfg, s, script, handled)
      ensures complete || handled == |script|
    {
      handled := 0;
      assert script[0..] == script;
      while !complete && handled < |script|
        invariant handled <= |script|
        invariant Wellformed() && Follows(cfg, s, script, handled, Model(), Capacity())
        invariant NoneLate(cfg, s, script, handled)
        decreases |script| - handled
      {
        NotLate(cfg, s, script, handled);
        WaitTurn(script, handled, s);
        handled := handled + 1;
      }
    }

    /**
     * The wait: events are handled until `complete`, or to the end of the script.  The call that has completed the
     * run may still return a failure of the poll.
     */
    method Wait(script: seq<Happening>) returns (handled: nat)
      requires Wellformed() && Model().Waiting() && !complete && AllPossible(cfg, Model(), script)
      requires RunFits(cfg, Model(), script, Capacity())
      modifies this`state, this`count, this`complete, this`accepted, this`activeTransfers
      modifies this`inFlight, this`cancelling, this`decoderFailed
      modifies fd, fd.pd, fd.pd.packet, fd.pd.packet.data
      ensures Wellformed() && handled <= |script|
      ensures AllPossible(cfg, old(Model()), script[..handled])
      ensures Model() == Exec(cfg, old(Model()), script[..handled])
      ensures HandledInTime(cfg, old(Model()), script, handled)
      ensures complete || handled == |script|
      ensures handled < |script| ==> !script[handled].PollFails? || (handled > 0 && script[handled - 1].PollFails?)
    {
      ghost var s := Model();
      handled := WaitToComplete(script, s);
      if handled < |script| && script[handled].PollFails? {
        WaitTurn(script, handled, s);
        handled := handled + 1;
      }
    }

    /** The wait and, when it is over, the result: the closing assertions hold. */
    method WaitForResult(script: seq<Happening>) returns (done: bool, result: int, handled: nat)
      requires Wellformed() && Model().Waiting() && !complete && AllPossible(cfg, Model(), script)
      requires RunFits(cfg, Model(), script, Capacity())
      modifies this`state, this`count, this`complete, this`accepted, this`activeTransfers
      modifies this`inFlight, this`cancelling, this`decoderFailed
      modifies fd, fd.pd, fd.pd.packet, fd.pd.packet.data
      ensures Wellformed() && handled <= |script|
      ensures AllPossible(cfg, old(Model()), script[..handled])
      ensures Model() == Exec(cfg, old(Model()), script[..handled])
      ensures HandledInTime(cfg, old(Model()), script, handled)
      ensures if done then complete && result == Result(Model()) else handled == |script| && !complete
    {
      ghost var s := Model();
      handled := Wait(script);
      InFlightAccounting(cfg, s, script[..handled]);
      done, result := complete, 0;
      if done {
        assert state != Running;
        assert activeTransfers == 0;
        result := if state != CountLimit then -state.Code() else count;
      }
    }

    /** Up to the wait; a loop with a fatal error is not started. */
    method Begin(limit: int, first: nat) returns (started: bool)
      requires Wellformed() && first <= TRANSFERS
      modifies this`state, this`count, this`maxCount, this`complete, this`accepted
      modifies this`inFlight, this`cancelling, this`activeTransfers
      ensures Wellformed() && !complete
      ensures started <==> old(state) != FatalError
      ensures Model() == Start(old(Model()), limit, first)
    {
      ResetCounters(limit, DecoderState());
      started := state != FatalError;
      if started {
        SubmitAll(first, DecoderState());
      }
    }

    /**
     * One run, against what libusb does: `first` submissions succeed, then `script` happens, of which `handled`
     * events are handled.  The run is over when `done`; otherwise it is still waiting at the end of the script.
     */
    method Run(limit: int, first: nat, script: seq<Happening>) returns (done: bool, result: int, handled: nat)
      requires Wellformed() && Model().Valid() && activeTransfers == 0 && first <= TRANSFERS
      requires state != FatalError ==>
                 && Start(Model(), limit, first).Waiting() && AllPossible(cfg, Start(Model(), limit, first), script)
                 && RunFits(cfg, Start(Model(), limit, first), script, Capacity())
      modifies this`state, this`count, this`maxCount, this`complete, this`accepted, this`activeTransfers
      modifies this`inFlight, this`cancelling, this`decoderFailed
      modifies fd, fd.pd, fd.pd.packet, fd.pd.packet.data
      ensures Wellformed() && handled <= |script|
      ensures old(state) == FatalError ==>
                done && result == -1 && handled == 0 && Model() == Start(old(Model()), limit, first)
      ensures old(state) != FatalError ==>
                && AllPossible(cfg, Start(old(Model()), limit, first), script[..handled])
                && Model() == Exec(cfg, Start(old(Model()), limit, first), script[..handled])
                && HandledInTime(cfg, Start(old(Model()), limit, first), script, handled)
                && (if done then complete && result == Result(Model()) else handled == |script| && !complete)
    {
      var started := Begin(limit, first);
      if !started {
        return true, -state.Code(), 0;
      }
      done, result, handled := WaitForResult(script);
    }

    /** Replaces the user's callback by one that breaks the loop as `breaks` says. */
    method SetCallback(breaks: seq<Packet> -> bool) returns (previous: seq<Packet> -> bool)
      modifies this`cfg
      ensures cfg == old(cfg).(breaks := breaks) && previous == old(cfg).breaks
    {
      previous := cfg.breaks;
      cfg := cfg.(breaks := breaks);
    }

    /**
     * What stopping a capture does before its last run: there is no user's callback any more, and the loop is running
     * again, with the decoder as it was left.
     */
    method Rearm()
      requires Wellformed() && Model().Valid() && activeTransfers == 0
      modifies this`cfg, this`state, this`decoderFailed
      ensures Wellformed() && Model().Valid() && !decoderFailed
      ensures NeverBreaks(cfg) && cfg == old(cfg).(breaks := cfg.breaks)
      ensures Model() == old(Model()).(state := Running, decoder := Some(fd.Abs()))
    {
      var previous := SetCallback(_ => false);
      state := Running;
      decoderFailed := false;
    }

    /** Frees the transfers: none is in flight. */
    method Destroy()
      requires Wellformed() && Model().Valid() && activeTransfers == 0
      ensures inFlight == {}
    {
      assert |inFlight| == 0;
    }
  }
}
