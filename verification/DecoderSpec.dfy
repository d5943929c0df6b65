/**
 * The two decoders of src/decoder.c as one step per byte.
 *
 * The packet decoder reassembles packets from the payload of SDRAM frames; the frame decoder tells
 * SDRAM frames from bus frames.  The C decoders copy packet data in bulk, keep half-read fields in
 * shared structures and stop at packet boundaries; module `Decoder` proves that they do what these
 * steps do.
 */
module DecoderSpec {
  import opened Bytes
  import opened Stream

  const FLAG_TRUNC := 0x08
  const FLAG_LAST := 0x20
  const MAX_PACKET_SIZE: nat := 1027
  /** The largest captured size: 13 bits of size (MAX_PACKET_SIZE is smaller). */
  const MAX_CAPTURED_SIZE: nat := 0x1fff

  const PACKET_FILLER: Byte := 0xa1
  const BUS_FRAME_MAGIC: Byte := 0x55
  const SDRAM_FRAME_MAGIC: Byte := 0xd0

  predicate IsPacketMagic(b: Byte) { b == 0xa0 || b == 0xa2 }

  /** `flags & mask` for a mask with a single bit set. */
  predicate HasFlag(flags: Byte, mask: nat)
    requires mask > 0
  {
    flags / mask % 2 == 1
  }

  datatype Header = Header(magic: Byte, flags: Byte, size: U16)
  {
    /**
     * The number of data bytes that follow: `size` counts the bytes on the wire, of which a truncated packet keeps
     * 1027.
     */
    function CapturedSize(): nat {
      if HasFlag(flags, FLAG_TRUNC) then MAX_PACKET_SIZE else size
    }
  }

  /** A packet as the packet callback sees it. */
  datatype Packet = Packet(header: Header, timestamp: U64, data: seq<Byte>)

  /** A callback the decoder makes. */
  datatype Call = PacketCall(packet: Packet) | BusCall(addr: U16, value: Byte)

  datatype PacketPhase =
    | Idle
    | GotMagic(magic: Byte)
    | GotFlags(magic: Byte, flags: Byte)
    | GotLengthLo(magic: Byte, flags: Byte, lo: Byte)
    /** `read` of the `total` bytes of the delta timestamp have made `delta`. */
    | Stamping(header: Header, read: nat, total: nat, delta: nat)
    | Filling(header: Header, got: seq<Byte>)

  /** State of the packet decoder; `clock` is the sum of the deltas so far, modulo 2^64. */
  datatype PacketState = PacketState(phase: PacketPhase, clock: U64)
  {
    predicate Valid() {
      match phase
      case Stamping(h, read, total, delta) =>
        h.size <= MAX_CAPTURED_SIZE && read < total <= 8 && delta < Pow256(read)
      case Filling(h, got) =>
        h.size <= MAX_CAPTURED_SIZE && (|got| < h.CapturedSize() || (got == [] && h.CapturedSize() == 0))
      case _ => true
    }

    /** The header announced no data, and no byte has come since to finish the packet. */
    predicate Pending() { phase.Filling? && phase.header.CapturedSize() <= |phase.got| }

    /** The packet finished at the present point. */
    function Finish(): (PacketState, Call)
      requires phase.Filling?
    {
      (PacketState(Idle, clock), PacketCall(Packet(phase.header, clock, phase.got)))
    }
  }

  type PacketOutcome = Outcome<PacketState, Call>

  function MagicStep(s: PacketState, b: Byte): PacketOutcome {
    if b == PACKET_FILLER then Next(s, [])
    else if IsPacketMagic(b) then Next(s.(phase := GotMagic(b)), [])
    else Reject(s, [])
  }

  function StampStep(s: PacketState, b: Byte): PacketState
    requires s.phase.Stamping?
  {
    var Stamping(h, read, total, delta) := s.phase;
    var delta' := delta + b * Pow256(read);
    if read + 1 >= total then
      PacketState(Filling(h, []), (s.clock + delta') % TWO_64)
    else
      s.(phase := Stamping(h, read + 1, total, delta'))
  }

  /** `((hi & 0x1f) << 8) | lo` */
  function SizeOf(lo: Byte, hi: Byte): (size: U16)
    ensures size <= MAX_CAPTURED_SIZE
  {
    hi % 0x20 * 0x100 + lo
  }

  /** `((hi & 0xe0) >> 5) + 1` */
  function DeltaLength(hi: Byte): (n: nat)
    ensures 1 <= n <= 8
  {
    hi / 0x20 + 1
  }

  function PacketStep(s: PacketState, b: Byte): PacketOutcome {
    match s.phase
    case Idle => MagicStep(s, b)
    case GotMagic(m) => Next(s.(phase := GotFlags(m, b)), [])
    case GotFlags(m, f) => Next(s.(phase := GotLengthLo(m, f, b)), [])
    case GotLengthLo(m, f, lo) =>
      Next(s.(phase := Stamping(Header(m, f, SizeOf(lo, b)), 0, DeltaLength(b), 0)), [])
    case Stamping(_, _, _, _) => Next(StampStep(s, b), [])
    case Filling(h, got) =>
      if s.Pending() then
        // The byte after an empty packet finishes it, and is not consumed by it.
        var (idle, call) := s.Finish();
        MagicStep(idle, b).After([call])
      else
        var full := s.(phase := Filling(h, got + [b]));
        if full.Pending() then
          var (idle, call) := full.Finish();
          Next(idle, [call])
        else Next(full, [])
  }

  datatype FramePhase =
    | BetweenFrames
    | SdramLength
    | SdramData(required: nat)
    | BusAddrHi
    | BusAddrLo(hi: Byte)
    | BusValue(addr: U16)
    | BusChecksum(addr: U16, value: Byte)

  datatype FrameState = FrameState(phase: FramePhase, packets: PacketState)
  {
    predicate Valid() {
      packets.Valid() && (phase.SdramData? ==> 1 <= phase.required <= 512)
    }
  }

  type FrameOutcome = Outcome<FrameState, Call>

  function AddrOf(hi: Byte, lo: Byte): U16 { hi * 0x100 + lo }

  /** The number of payload bytes an SDRAM frame announces with length byte `b`. */
  function SdramSize(b: Byte): nat { (b + 1) * 2 }

  function FrameStep(s: FrameState, b: Byte): FrameOutcome {
    match s.phase
    case BetweenFrames =>
      if b == BUS_FRAME_MAGIC then Next(s.(phase := BusAddrHi), [])
      else if b == SDRAM_FRAME_MAGIC then Next(s.(phase := SdramLength), [])
      else Reject(s, [])
    case SdramLength => Next(s.(phase := SdramData(SdramSize(b))), [])
    case SdramData(required) => SdramStep(required, PacketStep(s.packets, b))
    case BusAddrHi => Next(s.(phase := BusAddrLo(b)), [])
    case BusAddrLo(hi) => Next(s.(phase := BusValue(AddrOf(hi, b))), [])
    case BusValue(addr) => Next(s.(phase := BusChecksum(addr, b)), [])
    case BusChecksum(addr, value) => Next(s.(phase := BetweenFrames), [BusCall(addr, value)])
  }

  /** The frame decoder's side of one payload byte. */
  function SdramStep(required: nat, o: PacketOutcome): FrameOutcome {
    match o
    case Reject(p, e) => Reject(FrameState(SdramData(required), p), e)
    case Next(p, e) => Next(FrameState(AfterPayload(required, 1), p), e)
  }

  /** The phase when `n` of the `required` payload bytes have been consumed. */
  function AfterPayload(required: nat, n: nat): FramePhase {
    if required <= n then BetweenFrames else SdramData(required - n)
  }

  const INITIAL_PACKETS := PacketState(Idle, 0)
  const INITIAL_STATE := FrameState(BetweenFrames, INITIAL_PACKETS)

  // ---------------------------------------------------------------- invariants

  lemma PacketStepValid(s: PacketState, b: Byte)
    requires s.Valid()
    ensures PacketStep(s, b).state.Valid()
    ensures |PacketStep(s, b).calls| <= 1
  {
    if s.phase.Stamping? {
      PartialNumberBound(s.phase.delta, b, s.phase.read);
    }
  }

  lemma {:induction false} PacketRunValid(s: PacketState, bs: seq<Byte>)
    requires s.Valid()
    ensures Run(PacketStep, s, bs).state.Valid()
    decreases |bs|
  {
    if bs != [] {
      PacketStepValid(s, bs[0]);
      var o := PacketStep(s, bs[0]);
      if o.Next? { PacketRunValid(o.state, bs[1..]); }
    }
  }

  lemma {:induction false} FrameRunValid(s: FrameState, bs: seq<Byte>)
    requires s.Valid()
    ensures Run(FrameStep, s, bs).state.Valid()
    decreases |bs|
  {
    if bs != [] {
      PacketStepValid(s.packets, bs[0]);
      var o := FrameStep(s, bs[0]);
      if o.Next? { FrameRunValid(o.state, bs[1..]); }
    }
  }

  // ---------------------------------------------------------------- the magic bytes

  /** Between packets, 0xa1 is skipped, 0xa0 and 0xa2 start a packet, and every other byte is rejected. */
  lemma MagicOfPacket(clock: U64, b: Byte)
    ensures
      var idle, o := PacketState(Idle, clock), PacketStep(PacketState(Idle, clock), b);
      && (o.Reject? <==> b !in {0xa0, 0xa1, 0xa2})
      && (b == 0xa1 ==> o == Next(idle, []))
      && (b == 0xa0 || b == 0xa2 ==> o == Next(idle.(phase := GotMagic(b)), []))
  {
  }

  /** Between frames, 0x55 starts a bus frame, 0xd0 an SDRAM frame, and every other byte is rejected. */
  lemma MagicOfFrame(p: PacketState, b: Byte)
    ensures
      var s, o := FrameState(BetweenFrames, p), FrameStep(FrameState(BetweenFrames, p), b);
      && (o.Reject? <==> b !in {0x55, 0xd0})
      && (b == 0x55 ==> o == Next(s.(phase := BusAddrHi), []))
      && (b == 0xd0 ==> o == Next(s.(phase := SdramLength), []))
  {
  }

  /** The captured size in numbers. */
  lemma CapturedSizes(h: Header)
    ensures h.CapturedSize() == if h.flags / 0x08 % 2 == 1 then 1027 else h.size
  {
  }

  // ---------------------------------------------------------------- bulk copies

  /** Data bytes short of the captured size only extend the partial packet. */
  lemma {:induction false} FillPart(h: Header, got: seq<Byte>, clock: U64, xs: seq<Byte>)
    requires |got| + |xs| < h.CapturedSize()
    ensures Run(PacketStep, PacketState(Filling(h, got), clock), xs)
         == Next(PacketState(Filling(h, got + xs), clock), [])
    decreases |xs|
  {
    if xs == [] {
      assert got + xs == got;
    } else {
      var t := PacketState(Filling(h, got + [xs[0]]), clock);
      assert PacketStep(PacketState(Filling(h, got), clock), xs[0]) == Next(t, []);
      FillPart(h, got + [xs[0]], clock, xs[1..]);
      AfterNothing(Run(PacketStep, t, xs[1..]));
      assert got + [xs[0]] + xs[1..] == got + xs;
    }
  }

  /** The data byte that reaches the captured size finishes the packet. */
  lemma FillAll(h: Header, got: seq<Byte>, clock: U64, xs: seq<Byte>)
    requires xs != [] && |got| + |xs| == h.CapturedSize()
    ensures Run(PacketStep, PacketState(Filling(h, got), clock), xs)
         == Next(PacketState(Idle, clock), [PacketCall(Packet(h, clock, got + xs))])
  {
    var n := |xs| - 1;
    var s := PacketState(Filling(h, got), clock);
    assert xs == xs[..n] + [xs[n]];
    FillPart(h, got, clock, xs[..n]);
    RunConcat(PacketStep, s, xs[..n], [xs[n]]);
    var t := PacketState(Filling(h, got + xs[..n]), clock);
    RunOne(PacketStep, t, xs[n]);
    assert got + xs[..n] + [xs[n]] == got + xs;
  }

  /** A pending empty packet is handed over first, whatever follows. */
  lemma PendingFirst(s: PacketState, bs: seq<Byte>)
    requires s.Pending() && bs != []
    ensures Run(PacketStep, s, bs) == Run(PacketStep, s.Finish().0, bs).After([s.Finish().1])
  {
    var (idle, call) := s.Finish();
    var o := PacketStep(idle, bs[0]);
    if o.Next? {
      var r := Run(PacketStep, o.state, bs[1..]).calls;
      assert ([call] + o.calls) + r == [call] + (o.calls + r);
    }
  }

  /** Inside an SDRAM frame the frame decoder is the packet decoder. */
  lemma {:induction false} SdramRun(required: nat, p: PacketState, xs: seq<Byte>)
    requires 0 < required && |xs| <= required
    ensures
      var o := Run(PacketStep, p, xs);
      var f := Run(FrameStep, FrameState(SdramData(required), p), xs);
      && f.calls == o.calls && f.state.packets == o.state && (f.Next? <==> o.Next?)
      && (f.Next? ==> f.state.phase == AfterPayload(required, |xs|))
  {
    if xs != [] {
      var o := PacketStep(p, xs[0]);
      if o.Next? {
        if |xs| > 1 {
          SdramRun(required - 1, o.state, xs[1..]);
        } else {
          assert xs[1..] == [];
        }
      }
    }
  }
}
