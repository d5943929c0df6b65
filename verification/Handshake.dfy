/** Register messages, and how the echo of one stops a capture (src/cha.c, include/reg.h). */
module Handshake {
  import opened Bytes
  import opened Stream
  import opened DecoderSpec
  import opened Demux
  import opened LoopModel
  import opened LoopRuns
  import opened Masks

  function Sum(bs: seq<Byte>): nat {
    if bs == [] then 0 else Sum(bs[..|bs| - 1]) + bs[|bs| - 1]
  }

  /** The sum of the first `size` bytes, in 8 bits. */
  method TransactionChecksum(buf: array<Byte>, size: nat) returns (ret: Byte)
    requires size <= buf.Length
    ensures ret == Sum(buf[..size]) % 0x100
  {
    ret := 0;
    for i := 0 to size
      invariant ret == Sum(buf[..i]) % 0x100
    {
      assert buf[..i + 1][..i] == buf[..i];
      ret := (ret + buf[i]) % 0x100;
    }
  }

  /** `addr | 0x8000`: the address of a register to write. */
  function WriteAddress(addr: U16): U16 {
    if addr < 0x8000 then addr + 0x8000 else addr
  }

  /** A register message: a bus frame with the checksum the device expects. */
  function RegisterFrame(addr: U16, value: Byte): Frame {
    BusFrame(addr, value, Sum([BUS_FRAME_MAGIC, addr / 0x100, addr % 0x100, value]) % 0x100)
  }

  /** The bus frame that writes `value` to the register at `addr`. */
  function WriteFrame(addr: U16, value: Byte): Frame { RegisterFrame(WriteAddress(addr), value) }

  /** The bytes of a register message: the fifth is the sum of the others, modulo 256. */
  predicate IsMessage(msg: seq<Byte>, hi: Byte, lo: Byte, value: Byte) {
    && |msg| == 5
    && msg[0] == 0x55 && msg[1] == hi && msg[2] == lo && msg[3] == value
    && msg[4] == (0x55 + hi + lo + value) % 0x100
  }

  lemma SumOfFour(a: Byte, b: Byte, c: Byte, d: Byte)
    ensures Sum([a, b, c, d]) == a + b + c + d
  {
    assert [a, b, c, d][..3] == [a, b, c] && [a, b, c][..2] == [a, b] && [a, b][..1] == [a] && [a][..0] == [];
    assert Sum([a]) == a;
    assert Sum([a, b]) == a + b;
    assert Sum([a, b, c]) == a + b + c;
  }

  /** Of every register message. */
  lemma RegisterFrameBytes(addr: U16, value: Byte)
    ensures IsMessage(RegisterFrame(addr, value).Serialise(), addr / 0x100, addr % 0x100, value)
  {
    SumOfFour(0x55, addr / 0x100, addr % 0x100, value);
  }

  method RegisterMessage(hi: Byte, lo: Byte, value: Byte) returns (msg: array<Byte>)
    ensures fresh(msg) && msg[..] == RegisterFrame(AddrOf(hi, lo), value).Serialise()
  {
    msg := new Byte[5] [BUS_FRAME_MAGIC, hi, lo, value, 0];
    assert msg[..4] == [BUS_FRAME_MAGIC, hi, lo, value];
    msg[4] := TransactionChecksum(msg, 4);
  }

  method CastMessage(addr: U16, value: Byte) returns (msg: array<Byte>)
    ensures fresh(msg) && msg[..] == WriteFrame(addr, value).Serialise()
    ensures IsMessage(msg[..], 0x80 + addr / 0x100 % 0x80, addr % 0x100, value)
  {
    RegisterFrameBytes(WriteAddress(addr), value);
    var top := SetWriteBit(addr / 0x100);
    msg := RegisterMessage(top, addr % 0x100, value);
  }

  /** `addr & ~0x8000` undoes it for the addresses that leave the bit free, and for no others. */
  lemma WriteAddressMasked(addr: U16)
    ensures WriteAddress(addr) % 0x8000 == addr <==> addr < 0x8000
  {
  }

  /**
   * The stop handshake: the message written to SDRAM_HOST_READ_GO, echoed between frames and cut anywhere, is
   * decoded as one bus callback and nothing else; it stops the loop iff the value is 0 (and the register's
   * address leaves the write bit free).
   */
  lemma StopHandshake(cfg: Config, l: Loop, value: Byte, p: PacketState, chunks: seq<seq<Byte>>)
    requires Flatten(chunks) == WriteFrame(cfg.hostReadGo, value).Serialise()
    ensures
      var o := RunChunks(FrameStep, FrameState(BetweenFrames, p), chunks);
      && o == Next(FrameState(BetweenFrames, p), [BusCall(WriteAddress(cfg.hostReadGo), value)])
      && OnCalls(cfg, l, o.calls)
         == (if value == 0 && cfg.hostReadGo < 0x8000 then l.(state := HostReadOff) else l)
  {
    ChunkInvariance(FrameStep, FrameState(BetweenFrames, p), chunks);
    var f := WriteFrame(cfg.hostReadGo, value);
    BusFrameRun(p, f.addr, f.value, f.checksum);
    WriteAddressMasked(cfg.hostReadGo);
    var c := BusCall(f.addr, f.value);
    assert [c][1..] == [];
    assert OnCalls(cfg, l, [c]) == OnCall(cfg, l, c);
  }

  /** A bus frame for any register, with any value: only a 0 for the host-read-go register does something. */
  lemma OtherRegisters(cfg: Config, l: Loop, register: U16, value: Byte)
    ensures
      var l' := OnCall(cfg, l, BusCall(register, value));
      if register % 0x8000 == cfg.hostReadGo && value == 0 then l' == l.(state := HostReadOff) else l' == l
  {
  }

  /** The echo of a write to any register stops the loop iff it writes 0 to the one that stops it. */
  lemma WriteEcho(cfg: Config, l: Loop, register: U16, value: Byte, p: PacketState, chunks: seq<seq<Byte>>)
    requires register < 0x8000
    requires Flatten(chunks) == WriteFrame(register, value).Serialise()
    ensures
      var o := RunChunks(FrameStep, FrameState(BetweenFrames, p), chunks);
      && o.Next?
      && OnCalls(cfg, l, o.calls)
         == (if register == cfg.hostReadGo && value == 0 then l.(state := HostReadOff) else l)
  {
    ChunkInvariance(FrameStep, FrameState(BetweenFrames, p), chunks);
    var f := WriteFrame(register, value);
    BusFrameRun(p, f.addr, f.value, f.checksum);
    WriteAddressMasked(register);
    OtherRegisters(cfg, l, f.addr, f.value);
    var c := BusCall(f.addr, f.value);
    assert [c][1..] == [];
    assert OnCalls(cfg, l, [c]) == OnCall(cfg, l, c);
  }

  lemma {:induction false} HostReadOffHalts(cfg: Config, maxCount: int, before: seq<Packet>, calls: seq<Call>, i: nat)
    requires i < |calls| && calls[i].BusCall? && IsHostReadOff(cfg, calls[i].addr, calls[i].value)
    ensures Halts(cfg, maxCount, before, calls)
    decreases |calls|
  {
    if i > 0 {
      match calls[0]
      case BusCall(_, _) => HostReadOffHalts(cfg, maxCount, before, calls[1..], i - 1);
      case PacketCall(p) => HostReadOffHalts(cfg, maxCount, before + [p], calls[1..], i - 1);
    }
  }

  /** The callbacks of a stream with the echo among whole frames: the echo's follows those of the frames before it. */
  lemma EchoCalls(cfg: Config, p: PacketState, before: seq<Frame>, after: seq<Byte>) returns (later: seq<Call>)
    requires AllFrames(before)
    requires Run(FrameStep, FrameState(BetweenFrames, p),
                 SerialiseAll(before) + (WriteFrame(cfg.hostReadGo, 0).Serialise() + after)).Next?
    ensures
      var f := WriteFrame(cfg.hostReadGo, 0);
      Run(FrameStep, FrameState(BetweenFrames, p), SerialiseAll(before) + (f.Serialise() + after)).calls
      == DecodeAll(before, p).calls + ([BusCall(f.addr, f.value)] + later)
  {
    var f := WriteFrame(cfg.hostReadGo, 0);
    var d := DecodeAll(before, p);
    FramesRun(before, p);
    RunConcat(FrameStep, FrameState(BetweenFrames, p), SerialiseAll(before), f.Serialise() + after);
    var t := FrameState(BetweenFrames, d.state);
    BusFrameRun(d.state, f.addr, f.value, f.checksum);
    RunConcat(FrameStep, t, f.Serialise(), after);
    later := Run(FrameStep, t, after).calls;
  }

  /** The echo of the stop message among whole frames halts a run. */
  lemma EchoHalts(cfg: Config, maxCount: int, p: PacketState, before: seq<Frame>, after: seq<Byte>)
    requires cfg.hostReadGo < 0x8000 && AllFrames(before)
    ensures
      var o := Run(FrameStep, FrameState(BetweenFrames, p),
                   SerialiseAll(before) + (WriteFrame(cfg.hostReadGo, 0).Serialise() + after));
      o.Next? ==> Halts(cfg, maxCount, [], o.calls)
  {
    var f := WriteFrame(cfg.hostReadGo, 0);
    var d := DecodeAll(before, p);
    if Run(FrameStep, FrameState(BetweenFrames, p), SerialiseAll(before) + (f.Serialise() + after)).Next? {
      var later := EchoCalls(cfg, p, before, after);
      WriteAddressMasked(cfg.hostReadGo);
      HostReadOffHalts(cfg, maxCount, [], d.calls + ([BusCall(f.addr, f.value)] + later), |d.calls|);
    }
  }

  /** A run that has received the echo of the stop message among whole frames is no longer running. */
  lemma StopEchoEndsRun(
    cfg: Config, l: Loop, count: int, first: nat, hs: seq<Happening>,
    p: PacketState, before: seq<Frame>, after: seq<Byte>)
    requires cfg.maxPacketSize > 0 && cfg.hostReadGo < 0x8000
    requires l.Valid() && l.active == 0 && l.state == Running && first <= TRANSFERS
    requires l.decoder == Some(FrameState(BetweenFrames, p))
    requires Start(l, count, first).Waiting() && AllPossible(cfg, Start(l, count, first), hs)
    requires AllFrames(before)
    requires Received(cfg, hs) == SerialiseAll(before) + (WriteFrame(cfg.hostReadGo, 0).Serialise() + after)
    ensures Exec(cfg, Start(l, count, first), hs).state != Running
  {
    EchoHalts(cfg, count, p, before, after);
    RunDelivers(cfg, false, Start(l, count, first), l.decoder.value, [], hs);
    InFlightAccounting(cfg, Start(l, count, first), hs);
    assert [] + Received(cfg, hs) == Received(cfg, hs);
  }
}
