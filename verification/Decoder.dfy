/**
 * The decoders as src/decoder.c writes them: state machines over shared structures, with bulk copies
 * into the packet's storage.  Each is proved to do what the byte steps of `DecoderSpec` do.
 *
 * A callback is an element of `calls`: the decoders never read what a callback may change, so
 * reporting the calls of one invocation in order is the same as making them on the way.
 */
module Decoder {
  import opened Bytes
  import opened Stream
  import opened DecoderSpec
  import opened Masks
  import opened OvPackets
  import opened Storage

  datatype PacketDecoderState =
    | NeedPacketMagic
    | NeedPacketFlags
    | NeedPacketLengthLo
    | NeedPacketLengthHi
    | NeedPacketTimestamp
    | NeedPacketData

  /** Before `n` bytes of `buf` are consumed, nothing is called and no finished packet is waiting. */
  ghost predicate Quiet(s: PacketState, buf: seq<Byte>, n: nat)
    requires n <= |buf|
  {
    forall k | 0 <= k < n ::
      Run(PacketStep, s, buf[..k]).calls == [] && !Run(PacketStep, s, buf[..k]).state.Pending()
  }

  /**
   * What one invocation of the packet decoder on `buf` does: it goes on to the first packet it can
   * finish, and no further.  `ret` bytes are consumed, or -1 returned; `t` is the state afterwards.
   */
  ghost predicate StopsAtPacket(s: PacketState, buf: seq<Byte>, ret: int, t: PacketState, calls: seq<Call>) {
    if ret < 0 then
      ret == -1 && calls == [] && Run(PacketStep, s, buf) == Reject(t, [])
    else
      && ret <= |buf|
      && Quiet(s, buf, ret)
      && var o := Run(PacketStep, s, buf[..ret]);
      && o.Next?
      && (// the input ran out
          || (calls == [] && ret == |buf| && o == Next(t, []))
          // the last byte consumed finished a packet
          || (|calls| == 1 && o == Next(t, calls))
          // an empty packet was finished, without consuming the byte that showed it
          || (&& ret < |buf| && o.calls == [] && o.state.Pending()
              && (t, calls) == (o.state.Finish().0, [o.state.Finish().1])))
  }

  /** Where an invocation is before it has finished a packet: `pos` bytes of `buf` have led from `s` to `now`. */
  ghost predicate At(s: PacketState, buf: seq<Byte>, pos: nat, now: PacketState) {
    pos <= |buf| && Quiet(s, buf, pos) && Run(PacketStep, s, buf[..pos]) == Next(now, [])
  }

  /** The number of bytes of `xs` that are data of the packet being filled. */
  function CopyLength(s: PacketState, xs: seq<Byte>): (n: nat)
    requires s.Valid() && s.phase.Filling?
    ensures n <= |xs|
  {
    var required := s.phase.header.CapturedSize() - |s.phase.got|;
    if required < |xs| then required else |xs|
  }

  /** `copy` data bytes of `xs` appended to the packet being filled, and the packet delivered when it has them all. */
  ghost predicate Copied(s: PacketState, xs: seq<Byte>, copy: nat, t: PacketState, calls: seq<Call>)
    requires s.Valid() && s.phase.Filling?
  {
    && copy == CopyLength(s, xs)
    && var h, got := s.phase.header, s.phase.got + xs[..copy];
       if |got| == h.CapturedSize() then
            t == PacketState(Idle, s.clock) && calls == [PacketCall(Packet(h, s.clock, got))]
          else
            t == PacketState(Filling(h, got), s.clock) && calls == []
  }

  class PacketDecoder {
    const packet: OvPacket
    var cumulativeTs: U64
    var tsByte: nat
    var tsLength: nat
    var state: PacketDecoderState
    var bufActualLength: nat
    var errorStr: string

    ghost predicate Valid()
      reads this, packet
    {
      && (state != NeedPacketData ==> bufActualLength == 0)
      && match state
         case NeedPacketLengthHi => packet.size < 0x100
         case NeedPacketTimestamp =>
           packet.size <= MAX_CAPTURED_SIZE && tsByte < tsLength <= 8 && packet.timestamp < Pow256(tsByte)
         case NeedPacketData =>
           && packet.size <= MAX_CAPTURED_SIZE
           && packet.timestamp == cumulativeTs
           && bufActualLength <= packet.data.Length
           && var captured := packet.Header().CapturedSize();
              bufActualLength < captured || bufActualLength == captured == 0
         case _ => true
    }

    /** The number of data bytes for which there is storage. */
    function Capacity(): nat { packet.data.Length }

    ghost function Abs(): (s: PacketState)
      requires Valid()
      reads this, packet, packet.data
      ensures s.Valid()
    {
      PacketState(match state
                  case NeedPacketMagic => Idle
                  case NeedPacketFlags => GotMagic(packet.magic)
                  case NeedPacketLengthLo => GotFlags(packet.magic, packet.flags)
                  case NeedPacketLengthHi => GotLengthLo(packet.magic, packet.flags, packet.size)
                  case NeedPacketTimestamp => Stamping(packet.Header(), tsByte, tsLength, packet.timestamp)
                  case NeedPacketData => Filling(packet.Header(), packet.data[..bufActualLength]),
                  cumulativeTs)
    }

    constructor (p: OvPacket)
      ensures packet == p && Valid() && Abs() == INITIAL_PACKETS
    {
      packet := p;
      state := NeedPacketMagic;
      bufActualLength := 0;
      errorStr := "";
      cumulativeTs := 0;
      tsByte, tsLength := 0, 0;
    }

    method TimestampByte(b: Byte)
      requires Valid() && state == NeedPacketTimestamp
      modifies this, packet
      ensures Valid()
      ensures Abs() == StampStep(old(Abs()), b)
    {
      PartialNumberBound(packet.timestamp, b, tsByte);
      packet.timestamp := OrByte(packet.timestamp, b, tsByte);
      tsByte := tsByte + 1;
      if tsByte >= tsLength {
        cumulativeTs := (cumulativeTs + packet.timestamp) % TWO_64;
        packet.timestamp := cumulativeTs;
        state := NeedPacketData;
      }
    }

    /** The second byte of the size, which holds the length of the delta too. */
    method LengthHiByte(b: Byte)
      requires Valid() && state == NeedPacketLengthHi
      modifies this, packet
      ensures Valid()
      ensures PacketStep(old(Abs()), b) == Next(Abs(), [])
    {
      packet.size := OrSize(packet.size, b);
      var bits := HighBits(b);
      tsLength := bits + 1;
      tsByte := 0;
      packet.timestamp := 0;
      state := NeedPacketTimestamp;
    }

    /** The cases of the switch that consume one byte of a header; false on a wrong magic. */
    method HeaderByte(b: Byte) returns (ok: bool)
      requires Valid() && state != NeedPacketData
      modifies this, packet
      ensures Valid()
      ensures PacketStep(old(Abs()), b) == if ok then Next(Abs(), []) else Reject(Abs(), [])
    {
      ok := true;
      match state
      case NeedPacketMagic =>
        if b == PACKET_FILLER {
        } else if !IsPacketMagic(b) {
          errorStr := "Wrong packet magic";
          ok := false;
        } else {
          packet.magic := b;
          state := NeedPacketFlags;
        }
      case NeedPacketFlags =>
        packet.flags := b;
        state := NeedPacketLengthLo;
      case NeedPacketLengthLo =>
        packet.size := b;
        state := NeedPacketLengthHi;
      case NeedPacketLengthHi =>
        LengthHiByte(b);
      case NeedPacketTimestamp =>
        TimestampByte(b);
    }

    /** The case that copies data bytes in bulk, and finishes the packet when it has them all. */
    method CopyData(xs: seq<Byte>) returns (copy: nat, calls: seq<Call>)
      requires Valid() && state == NeedPacketData
      requires bufActualLength + CopyLength(Abs(), xs) <= Capacity()
      modifies this, packet.data
      ensures Valid()
      ensures Copied(old(Abs()), xs, copy, Abs(), calls)
    {
      ghost var got := packet.data[..bufActualLength];
      var captured := packet.CapturedSize();
      var required := captured - bufActualLength;
      copy := if required < |xs| then required else |xs|;
      forall i | 0 <= i < copy {
        packet.data[bufActualLength + i] := xs[i];
      }
      bufActualLength := bufActualLength + copy;
      assert packet.data[..bufActualLength] == got + xs[..copy];
      calls := [];
      if required == copy {
        calls := [PacketCall(Packet(packet.Header(), packet.timestamp, packet.data[..bufActualLength]))];
        bufActualLength := 0;
        state := NeedPacketMagic;
      }
    }

    /** One turn of the loop in the data phase: the input has run out, or the packet is finished. */
    method DataTurn(buf: seq<Byte>, pos: nat, ghost s: PacketState) returns (copy: nat, calls: seq<Call>)
      requires Valid() && state == NeedPacketData && pos < |buf|
      requires At(s, buf, pos, Abs()) && Fits(Abs(), buf[pos..], Capacity())
      modifies this, packet.data
      ensures Valid()
      ensures if calls == [] then pos + copy == |buf| && At(s, buf, |buf|, Abs())
              else StopsAtPacket(s, buf, pos + copy, Abs(), calls)
    {
      ghost var now := Abs();
      CopyFits(now, buf[pos..], Capacity());
      copy, calls := CopyData(buf[pos..]);
      CopyTaken(s, now, buf, pos, copy, Abs(), calls);
    }

    /** One turn of the loop at a byte of a header. */
    method HeaderTurn(buf: seq<Byte>, pos: nat, ghost s: PacketState) returns (ok: bool)
      requires Valid() && state != NeedPacketData && pos < |buf|
      requires At(s, buf, pos, Abs()) && Fits(Abs(), buf[pos..], Capacity())
      modifies this, packet
      ensures Valid()
      ensures if ok then At(s, buf, pos + 1, Abs()) && Fits(Abs(), buf[pos + 1..], Capacity())
              else StopsAtPacket(s, buf, -1, Abs(), [])
    {
      ghost var now := Abs();
      ok := HeaderByte(buf[pos]);
      StepTaken(s, now, buf, pos, ok, Abs());
      StepFits(now, buf, pos, Capacity());
    }

    /** Storage that has a place for every data byte of `buf` is all that is asked of the caller. */
    method Proc(buf: seq<Byte>) returns (ret: int, calls: seq<Call>)
      requires Valid() && Fits(Abs(), buf, Capacity())
      modifies this, packet, packet.data
      ensures Valid()
      ensures StopsAtPacket(old(Abs()), buf, ret, Abs(), calls)
    {
      var pos := 0;
      calls := [];
      ghost var s := Abs();
      assert buf[0..] == buf;
      while pos < |buf|
        invariant 0 <= pos <= |buf|
        invariant Valid() && calls == []
        invariant At(s, buf, pos, Abs()) && Fits(Abs(), buf[pos..], Capacity())
      {
        if state == NeedPacketData {
          var copy;
          copy, calls := DataTurn(buf, pos, s);
          pos := pos + copy;
          if calls != [] {
            return pos, calls;
          }
        } else {
          var ok := HeaderTurn(buf, pos, s);
          if !ok {
            return -1, [];
          }
          pos := pos + 1;
        }
      }
      assert buf[..pos] == buf;
      ret := pos;
    }
  }

  /** One byte outside the data phase. */
  lemma StepTaken(s: PacketState, now: PacketState, buf: seq<Byte>, pos: nat, ok: bool, t: PacketState)
    requires pos < |buf| && At(s, buf, pos, now) && !now.phase.Filling?
    requires PacketStep(now, buf[pos]) == if ok then Next(t, []) else Reject(t, [])
    ensures if ok then At(s, buf, pos + 1, t) else StopsAtPacket(s, buf, -1, t, [])
  {
    ProcSteps(s, now, buf, pos);
  }

  lemma StepFits(now: PacketState, buf: seq<Byte>, pos: nat, capacity: nat)
    requires pos < |buf| && Fits(now, buf[pos..], capacity)
    ensures PacketStep(now, buf[pos]).Next? ==> Fits(PacketStep(now, buf[pos]).state, buf[pos + 1..], capacity)
  {
    assert buf[pos..][1..] == buf[pos + 1..];
  }

  /** A copy of data bytes: the input has run out, or the packet is finished. */
  lemma CopyTaken(
    s: PacketState, now: PacketState, buf: seq<Byte>, pos: nat, copy: nat, t: PacketState, calls: seq<Call>)
    requires pos < |buf| && At(s, buf, pos, now) && now.Valid() && now.phase.Filling?
    requires Copied(now, buf[pos..], copy, t, calls)
    ensures if calls == [] then pos + copy == |buf| && At(s, buf, |buf|, t)
            else StopsAtPacket(s, buf, pos + copy, t, calls)
  {
    ProcCopies(s, now, buf, pos);
    assert buf[pos..][..copy] == buf[pos..pos + copy];
  }

  /** Data bytes that fit have their places. */
  lemma CopyFits(now: PacketState, xs: seq<Byte>, capacity: nat)
    requires now.Valid() && now.phase.Filling? && |now.phase.got| <= capacity && Fits(now, xs, capacity)
    ensures |now.phase.got| + CopyLength(now, xs) <= capacity
  {
    var n := CopyLength(now, xs);
    assert xs == xs[..n] + xs[n..];
    FitsConcat(now, xs[..n], xs[n..], capacity);
    DataFits(now.phase.header, now.phase.got, now.clock, xs[..n], capacity);
  }

  /** One byte outside the data phase: where the fold is after it. */
  lemma ProcSteps(s: PacketState, now: PacketState, buf: seq<Byte>, pos: nat)
    requires pos < |buf|
    requires !now.phase.Filling?
    requires Run(PacketStep, s, buf[..pos]) == Next(now, []) && Quiet(s, buf, pos)
    ensures Run(PacketStep, s, buf[..pos + 1]) == PacketStep(now, buf[pos])
    ensures Quiet(s, buf, pos + 1)
    ensures PacketStep(now, buf[pos]).Reject? ==> Run(PacketStep, s, buf) == PacketStep(now, buf[pos])
  {
    assert buf[..pos + 1] == buf[..pos] + [buf[pos]];
    RunConcat(PacketStep, s, buf[..pos], [buf[pos]]);
    RunOne(PacketStep, now, buf[pos]);
    AfterNothing(PacketStep(now, buf[pos]));
    assert buf == buf[..pos + 1] + buf[pos + 1..];
    RunConcat(PacketStep, s, buf[..pos + 1], buf[pos + 1..]);
  }

  /** A copy of `copy` data bytes: where the fold is after it. */
  lemma ProcCopies(s: PacketState, now: PacketState, buf: seq<Byte>, pos: nat)
    requires pos < |buf| && now.Valid() && now.phase.Filling?
    requires Run(PacketStep, s, buf[..pos]) == Next(now, []) && Quiet(s, buf, pos)
    ensures Quiet(s, buf, pos + CopyLength(now, buf[pos..]))
    ensures
      var copy := CopyLength(now, buf[pos..]);
      var h, got := now.phase.header, now.phase.got + buf[pos..pos + copy];
      var o := Run(PacketStep, s, buf[..pos + copy]);
      if |got| < h.CapturedSize() then o == Next(PacketState(Filling(h, got), now.clock), [])
      else if copy == 0 then o == Next(now, [])
      else o == Next(PacketState(Idle, now.clock), [PacketCall(Packet(h, now.clock, got))])
  {
    var h, got := now.phase.header, now.phase.got;
    var copy := CopyLength(now, buf[pos..]);
    forall k | pos <= k < pos + copy
      ensures Run(PacketStep, s, buf[..k]) == Next(PacketState(Filling(h, got + buf[pos..k]), now.clock), [])
    {
      FillPart(h, got, now.clock, buf[pos..k]);
      ProcJoins(s, now, buf, pos, k);
    }
    if copy > 0 {
      if |got| + copy < h.CapturedSize() {
        FillPart(h, got, now.clock, buf[pos..pos + copy]);
      } else {
        FillAll(h, got, now.clock, buf[pos..pos + copy]);
      }
      ProcJoins(s, now, buf, pos, pos + copy);
    }
  }

  lemma ProcJoins(s: PacketState, now: PacketState, buf: seq<Byte>, pos: nat, k: nat)
    requires pos <= k <= |buf|
    requires Run(PacketStep, s, buf[..pos]) == Next(now, [])
    ensures Run(PacketStep, s, buf[..k]) == Run(PacketStep, now, buf[pos..k])
  {
    assert buf[..k] == buf[..pos] + buf[pos..k];
    RunConcat(PacketStep, s, buf[..pos], buf[pos..k]);
    AfterNothing(Run(PacketStep, now, buf[pos..k]));
  }

  datatype FrameDecoderState =
    | NeedFrameMagic
    | NeedSdramFrameLength
    | NeedSdramFrameData
    | NeedBusFrameAddrHi
    | NeedBusFrameAddrLo
    | NeedBusFrameValue
    | NeedBusFrameChecksum

  /**
   * The union of struct frame_decoder, tagged with the member last written: a read of the other one does not verify.
   */
  datatype FrameUnion =
    | Sdram(requiredLength: U16)
    | Bus(addr: U16, value: Byte, checksum: Byte)

  /** What consuming `ret` bytes of `rest` has to do: the callbacks and the state from which the rest is decoded. */
  ghost predicate Consumed(s: FrameState, rest: seq<Byte>, ret: int, t: FrameState, calls: seq<Call>, capacity: nat)
    requires ret <= |rest|
  {
    var o := Run(FrameStep, s, rest);
    && (ret == 0 ==> s.packets.Pending() && !t.packets.Pending())
    && if ret < 0 then ret == -1 && o.Reject? && calls == o.calls && t.packets == o.state.packets
       else o == Run(FrameStep, t, rest[ret..]).After(calls) && StreamFits(t, rest[ret..], capacity)
  }

  class FrameDecoder {
    const pd: PacketDecoder
    var state: FrameDecoderState
    var union: FrameUnion

    ghost predicate Valid()
      reads this, pd, pd.packet
    {
      && pd.Valid()
      && match state
         case NeedSdramFrameData => union.Sdram? && 1 <= union.requiredLength <= 512
         case NeedBusFrameAddrLo => union.Bus? && union.addr % 0x100 == 0
         case NeedBusFrameValue => union.Bus?
         case NeedBusFrameChecksum => union.Bus?
         case _ => true
    }

    ghost function Abs(): (s: FrameState)
      requires Valid()
      reads this, pd, pd.packet, pd.packet.data
      ensures s.Valid()
    {
      FrameState(match state
                 case NeedFrameMagic => BetweenFrames
                 case NeedSdramFrameLength => SdramLength
                 case NeedSdramFrameData => SdramData(union.requiredLength)
                 case NeedBusFrameAddrHi => BusAddrHi
                 case NeedBusFrameAddrLo => BusAddrLo(union.addr / 0x100)
                 case NeedBusFrameValue => BusValue(union.addr)
                 case NeedBusFrameChecksum => BusChecksum(union.addr, union.value),
                 pd.Abs())
    }

    constructor (p: OvPacket)
      ensures fresh(pd) && pd.packet == p
      ensures Valid() && Abs() == INITIAL_STATE
    {
      pd := new PacketDecoder(p);
      state := NeedFrameMagic;
      union := Sdram(0);
    }

    predicate InBusFrame()
      reads this
    {
      state in {NeedBusFrameAddrHi, NeedBusFrameAddrLo, NeedBusFrameValue, NeedBusFrameChecksum}
    }

    /** The two bytes of a bus frame's address. */
    method BusAddressByte(b: Byte)
      requires Valid() && state in {NeedBusFrameAddrHi, NeedBusFrameAddrLo}
      modifies this
      ensures Valid()
      ensures FrameStep(old(Abs()), b) == Next(Abs(), [])
    {
      match state
      case NeedBusFrameAddrHi =>
        // The value and the checksum are written before they are read; until then they are what the storage held.
        union := if union.Bus? then union.(addr := b * 0x100) else Bus(b * 0x100, 0, 0);
        state := NeedBusFrameAddrLo;
      case NeedBusFrameAddrLo =>
        var addr := OrLow(union.addr, b);
        union := union.(addr := addr);
        state := NeedBusFrameValue;
    }

    /** The cases of the switch that consume one byte of a bus frame. */
    method BusFrameByte(b: Byte) returns (calls: seq<Call>)
      requires Valid() && InBusFrame()
      modifies this
      ensures Valid()
      ensures FrameStep(old(Abs()), b) == Next(Abs(), calls)
    {
      calls := [];
      if state == NeedBusFrameValue {
        union := union.(value := b);
        state := NeedBusFrameChecksum;
      } else if state == NeedBusFrameChecksum {
        union := union.(checksum := b);
        state := NeedFrameMagic;
        calls := [BusCall(union.addr, union.value)];
      } else {
        BusAddressByte(b);
      }
    }

    /** The cases of the switch that consume one byte before the payload of an SDRAM frame; false on a wrong magic. */
    method FrameByte(b: Byte) returns (ok: bool)
      requires Valid() && state != NeedSdramFrameData && !InBusFrame()
      modifies this
      ensures Valid()
      ensures FrameStep(old(Abs()), b) == if ok then Next(Abs(), []) else Reject(Abs(), [])
    {
      ok := true;
      match state
      case NeedFrameMagic =>
        if b == BUS_FRAME_MAGIC {
          state := NeedBusFrameAddrHi;
        } else if b == SDRAM_FRAME_MAGIC {
          state := NeedSdramFrameLength;
        } else {
          ok := false;
        }
      case NeedSdramFrameLength =>
        union := Sdram((b + 1) * 2);
        state := NeedSdramFrameData;
    }

    /** The packet decoder on the first `psize` bytes. */
    method HandOver(rest: seq<Byte>, psize: nat) returns (ret: int, calls: seq<Call>)
      requires Valid() && state == NeedSdramFrameData
      requires 0 < psize <= |rest| && psize <= union.requiredLength
      requires StreamFits(Abs(), rest, pd.Capacity())
      modifies pd, pd.packet, pd.packet.data
      ensures Valid()
      ensures ret <= psize
      ensures
        var t := FrameState(if ret < 0 then Abs().phase else AfterPayload(union.requiredLength, ret), pd.Abs());
        Consumed(old(Abs()), rest, ret, t, calls, pd.Capacity())
    {
      ghost var s := Abs();
      SliceFits(s, rest, psize, pd.Capacity());
      ret, calls := pd.Proc(rest[..psize]);
      PayloadSlice(s, rest, psize, ret, pd.Abs(), calls);
      RestFits(s, rest, psize, ret, pd.Abs(), calls, pd.Capacity());
    }

    /** `n` payload bytes have been consumed. */
    method Advance(n: nat)
      requires Valid() && state == NeedSdramFrameData && n <= union.requiredLength
      modifies this
      ensures Valid()
      ensures Abs() == FrameState(AfterPayload(old(union.requiredLength), n), old(Abs()).packets)
    {
      union := union.(requiredLength := union.requiredLength - n);
      if union.requiredLength == 0 {
        state := NeedFrameMagic;
      }
    }

    /** The case that hands payload bytes to the packet decoder. */
    method Payload(rest: seq<Byte>) returns (ret: int, calls: seq<Call>)
      requires Valid() && state == NeedSdramFrameData && rest != []
      requires StreamFits(Abs(), rest, pd.Capacity())
      modifies this, pd, pd.packet, pd.packet.data
      ensures Valid()
      ensures ret <= |rest|
      ensures Consumed(old(Abs()), rest, ret, Abs(), calls, pd.Capacity())
    {
      var psize := if union.requiredLength < |rest| then union.requiredLength else |rest|;
      ret, calls := HandOver(rest, psize);
      if ret >= 0 {
        Advance(ret);
      }
    }

    /** One turn of the loop. */
    method Turn(rest: seq<Byte>) returns (ret: int, calls: seq<Call>)
      requires Valid() && rest != [] && StreamFits(Abs(), rest, pd.Capacity())
      modifies this, pd, pd.packet, pd.packet.data
      ensures Valid()
      ensures ret <= |rest|
      ensures Consumed(old(Abs()), rest, ret, Abs(), calls, pd.Capacity())
    {
      if state == NeedSdramFrameData {
        ret, calls := Payload(rest);
      } else if InBusFrame() {
        calls := BusFrameByte(rest[0]);
        ret := 1;
      } else {
        calls := [];
        var ok := FrameByte(rest[0]);
        ret := 1;
        if !ok {
          pd.errorStr := "Wrong frame magic";
          ret := -1;
        } else {
          AfterNothing(Run(FrameStep, Abs(), rest[1..]));
        }
      }
    }

    /**
     * Storage that has a place for every data byte in `buf` is all that is asked of the caller.  All of `buf` is
     * consumed, or -1 returned; whatever callbacks were made before a rejection stay made.
     */
    method Proc(buf: seq<Byte>) returns (ret: int, calls: seq<Call>)
      requires Valid() && StreamFits(Abs(), buf, pd.Capacity())
      modifies this, pd, pd.packet, pd.packet.data
      ensures Valid()
      ensures
        var o := Run(FrameStep, old(Abs()), buf);
        && calls == o.calls
        && (if o.Next? then ret == |buf| && Abs() == o.state else ret == -1 && Abs().packets == o.state.packets)
    {
      var rest := buf;
      calls := [];
      ghost var s := Abs();
      AfterNothing(Run(FrameStep, s, buf));
      while rest != []
        invariant Valid() && StreamFits(Abs(), rest, pd.Capacity())
        invariant Run(FrameStep, s, buf) == Run(FrameStep, Abs(), rest).After(calls)
        decreases |rest|, if Abs().packets.Pending() then 1 else 0
      {
        var more;
        ret, more := Turn(rest);
        if ret < 0 {
          return ret, calls + more;
        }
        rest := rest[ret..];
        AfterAfter(Run(FrameStep, Abs(), rest), calls, more);
        calls := calls + more;
      }
      ret := |buf|;
    }
  }

  /** What is handed to the packet decoder fits. */
  lemma SliceFits(s: FrameState, rest: seq<Byte>, psize: nat, capacity: nat)
    requires s.phase.SdramData? && 0 < psize <= |rest| && psize <= s.phase.required
    requires StreamFits(s, rest, capacity)
    ensures Fits(s.packets, rest[..psize], capacity)
  {
    assert rest == rest[..psize] + rest[psize..];
    StreamFitsConcat(s, rest[..psize], rest[psize..], capacity);
    SdramFits(s.phase.required, s.packets, rest[..psize], capacity);
  }

  /** And so does what is left when it has consumed `ret` bytes. */
  lemma RestFits(
    s: FrameState, rest: seq<Byte>, psize: nat, ret: int, t: PacketState, calls: seq<Call>, capacity: nat)
    requires s.Valid() && s.phase.SdramData?
    requires 0 < psize <= |rest| && psize <= s.phase.required
    requires StopsAtPacket(s.packets, rest[..psize], ret, t, calls)
    requires StreamFits(s, rest, capacity)
    ensures ret >= 0 ==> StreamFits(FrameState(AfterPayload(s.phase.required, ret), t), rest[ret..], capacity)
  {
    if ret >= 0 {
      assert rest[..psize][..ret] == rest[..ret] && rest == rest[..ret] + rest[ret..];
      StreamFitsConcat(s, rest[..ret], rest[ret..], capacity);
      SdramRun(s.phase.required, s.packets, rest[..ret]);
    }
  }

  /** One invocation of the packet decoder, seen from the frame decoder. */
  lemma PayloadSlice(s: FrameState, rest: seq<Byte>, psize: nat, ret: int, t: PacketState, calls: seq<Call>)
    requires s.Valid() && s.phase.SdramData?
    requires 0 < psize <= |rest| && psize <= s.phase.required
    requires StopsAtPacket(s.packets, rest[..psize], ret, t, calls)
    ensures
      var o := Run(FrameStep, s, rest);
      if ret < 0 then o.Reject? && o.calls == calls && o.state.packets == t
      else o == Run(FrameStep, FrameState(AfterPayload(s.phase.required, ret), t), rest[ret..]).After(calls)
    ensures ret == 0 ==> s.packets.Pending() && !t.Pending()
  {
    var slice := rest[..psize];
    if ret < 0 {
      SdramRun(s.phase.required, s.packets, slice);
      RunConcat(FrameStep, s, slice, rest[psize..]);
      assert rest == slice + rest[psize..];
    } else {
      assert slice[..ret] == rest[..ret] && rest == rest[..ret] + rest[ret..];
      SdramRun(s.phase.required, s.packets, rest[..ret]);
      RunConcat(FrameStep, s, rest[..ret], rest[ret..]);
      var o := Run(FrameStep, s, rest[..ret]);
      if o.state.packets != t {
        PendingFrameFirst(o.state, rest[ret..]);
        AfterNothing(Run(FrameStep, o.state, rest[ret..]));
      }
    }
  }

  lemma PendingFrameFirst(s: FrameState, bs: seq<Byte>)
    requires s.phase.SdramData? && s.packets.Pending() && bs != []
    ensures
      var (idle, call) := s.packets.Finish();
      Run(FrameStep, s, bs) == Run(FrameStep, s.(packets := idle), bs).After([call])
  {
    var (idle, call) := s.packets.Finish();
    var o := FrameStep(s.(packets := idle), bs[0]);
    assert FrameStep(s, bs[0]) == o.After([call]);
    if o.Next? {
      AfterAfter(Run(FrameStep, o.state, bs[1..]), [call], o.calls);
    }
  }
}
