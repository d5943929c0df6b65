/**
 * The capture loop of src/cha.c as a transition system: what each callback and each submission does to
 * the loop, and to the three USB transfers libusb holds for it.
 */
module LoopModel {
  import opened Bytes
  import opened Stream
  import opened DecoderSpec

  const TRANSFERS: nat := 3

  datatype Option<T> = None | Some(value: T)

  datatype LoopState = Running | FatalError | BreakLoop | CountLimit | EndOfStream | HostReadOff
  {
    function Code(): int {
      match this
      case Running => 0
      case FatalError => 1
      case BreakLoop => 2
      case CountLimit => 3
      case EndOfStream => 4
      case HostReadOff => 5
    }
  }

  /** What libusb knows: the transfers it has to call back about, and those it was asked to cancel. */
  datatype Usb = Usb(inFlight: set<nat>, cancelling: set<nat>)

  /**
   * The surroundings of a run: the address of SDRAM_HOST_READ_GO, the FTDI block size, and the user's
   * callback, of which it matters whether it breaks the loop, as it may decide from all it has been given.
   */
  datatype Config = Config(hostReadGo: U16, maxPacketSize: nat, breaks: seq<Packet> -> bool)

  /**
   * `decoder` is None once a decoding error has left it in the middle of a frame.
   * `accepted` is what the packet callback has let through since the run started.
   */
  datatype Loop = Loop(
    decoder: Option<FrameState>,
    state: LoopState,
    count: int,
    maxCount: int,
    active: int,
    complete: bool,
    usb: Usb,
    accepted: seq<Packet>)
  {
    ghost predicate Valid() {
      && active == |usb.inFlight|
      && usb.cancelling <= usb.inFlight
      && usb.inFlight <= Transfers()
      && (usb.cancelling != {} ==> state != Running)
      && (complete ==> active == 0)
      && (state == Running ==> decoder.Some?)
    }

    /** A loop that is waiting for events. */
    ghost predicate Waiting() {
      && Valid()
      && (state == Running ==> usb.inFlight == Transfers())
    }
  }

  function FirstTransfers(n: nat): (ts: set<nat>)
    ensures forall i: nat :: i in ts <==> i < n
  {
    if n == 0 then {} else FirstTransfers(n - 1) + {n - 1}
  }

  lemma {:induction false} FirstTransfersSize(n: nat)
    ensures |FirstTransfers(n)| == n
  {
    if n > 0 { FirstTransfersSize(n - 1); }
  }

  function Transfers(): set<nat> { FirstTransfers(TRANSFERS) }

  function CancelAll(l: Loop): Loop {
    l.(usb := l.usb.(cancelling := l.usb.inFlight))
  }

  function BreakOff(l: Loop): Loop {
    CancelAll(l.(state := BreakLoop))
  }

  // ---------------------------------------------------------------- the decoder's callbacks

  function OnPacket(cfg: Config, l: Loop, p: Packet): Loop {
    if l.state != Running then l
    else
      var given := l.(accepted := l.accepted + [p]);
      var called := if cfg.breaks(given.accepted) then BreakOff(given) else given;
      var counted :=
        if called.maxCount > 0 then
          called.(count := called.count + 1,
                  state := if called.count >= called.maxCount then CountLimit else called.state)
        else called;
      if HasFlag(p.header.flags, FLAG_LAST) then counted.(state := EndOfStream) else counted
  }

  predicate IsHostReadOff(cfg: Config, addr: U16, value: Byte) {
    addr % 0x8000 == cfg.hostReadGo && value == 0
  }

  function OnCall(cfg: Config, l: Loop, c: Call): Loop {
    match c
    case PacketCall(p) => OnPacket(cfg, l, p)
    case BusCall(addr, value) => if IsHostReadOff(cfg, addr, value) then l.(state := HostReadOff) else l
  }

  function OnCalls(cfg: Config, l: Loop, calls: seq<Call>): Loop
    decreases |calls|
  {
    if calls == [] then l else OnCalls(cfg, OnCall(cfg, l, calls[0]), calls[1..])
  }

  // ---------------------------------------------------------------- one completed transfer

  /** One block without its FTDI header. */
  function OnBlock(cfg: Config, l: Loop, block: seq<Byte>): Loop
    requires l.decoder.Some?
    ensures OnBlock(cfg, l, block).state == Running ==> OnBlock(cfg, l, block).decoder.Some?
  {
    match Run(FrameStep, l.decoder.value, block)
    case Next(d, calls) => OnCalls(cfg, l, calls).(decoder := Some(d))
    case Reject(_, calls) => OnCalls(cfg, l, calls).(decoder := None, state := FatalError)
  }

  function BlockLength(cfg: Config, bytes: seq<Byte>): nat {
    if |bytes| < cfg.maxPacketSize then |bytes| else cfg.maxPacketSize
  }

  function Payload(block: seq<Byte>): seq<Byte> {
    if |block| > 2 then block[2..] else []
  }

  /** The received bytes, block by block, for as long as the loop is running. */
  function OnBlocks(cfg: Config, l: Loop, bytes: seq<Byte>): Loop
    requires cfg.maxPacketSize > 0
    requires l.state == Running ==> l.decoder.Some?
    decreases |bytes|
  {
    if l.state != Running || bytes == [] then l
    else
      var n := BlockLength(cfg, bytes);
      var l' := if n > 2 then OnBlock(cfg, l, bytes[2..n]) else l;
      OnBlocks(cfg, l', bytes[n..])
  }

  /** The received bytes without the two bytes of FTDI header of each block. */
  function Strip(cfg: Config, bytes: seq<Byte>): seq<Byte>
    requires cfg.maxPacketSize > 0
    decreases |bytes|
  {
    if bytes == [] then []
    else
      var n := BlockLength(cfg, bytes);
      Payload(bytes[..n]) + Strip(cfg, bytes[n..])
  }

  datatype Status = Completed(bytes: seq<Byte>) | Cancelled | Failed

  function Drained(l: Loop): Loop {
    l.(active := l.active - 1, complete := l.active == 1)
  }

  function TakenBack(l: Loop, i: nat): Loop {
    l.(usb := Usb(l.usb.inFlight - {i}, l.usb.cancelling - {i}))
  }

  /** A received transfer is resubmitted while the loop is running; else all are cancelled, and this one is done. */
  function Resubmitted(l: Loop, i: nat, resubmits: bool): Loop {
    if l.state == Running && resubmits then l.(usb := l.usb.(inFlight := l.usb.inFlight + {i}))
    else Drained(CancelAll(if l.state == Running then l.(state := FatalError) else l))
  }

  /** A transfer that libusb has given back. */
  function OnStatus(cfg: Config, back: Loop, i: nat, status: Status, resubmits: bool): Loop
    requires cfg.maxPacketSize > 0
    requires back.state == Running ==> back.decoder.Some?
  {
    match status
    case Completed(bytes) => Resubmitted(OnBlocks(cfg, back, bytes), i, resubmits)
    case Cancelled => Drained(back)
    case Failed => Drained(back.(state := FatalError))
  }

  function OnTransfer(cfg: Config, l: Loop, i: nat, status: Status, resubmits: bool): Loop
    requires cfg.maxPacketSize > 0
    requires l.state == Running ==> l.decoder.Some?
  {
    OnStatus(cfg, TakenBack(l, i), i, status, resubmits)
  }

  // ---------------------------------------------------------------- a run

  /**
   * What may happen while the loop waits.  A transfer is called back; a completed one is resubmitted unless the
   * loop has stopped, which succeeds iff `resubmits`.
   * Or polling fails, or reports nothing, or the loop is broken off between two events.
   */
  datatype Happening =
    | Callback(i: nat, status: Status, resubmits: bool)
    | PollFails
    | PollIdle
    | Break

  /** libusb calls back about transfers it holds, and reports CANCELLED only when asked to cancel. */
  predicate Possible(l: Loop, h: Happening) {
    h.Callback? ==> h.i in l.usb.inFlight && (h.status.Cancelled? ==> h.i in l.usb.cancelling)
  }

  function React(cfg: Config, l: Loop, h: Happening): Loop
    requires cfg.maxPacketSize > 0
    requires l.state == Running ==> l.decoder.Some?
  {
    match h
    case Callback(i, status, resubmits) => OnTransfer(cfg, l, i, status, resubmits)
    case PollFails => l.(state := FatalError)
    case PollIdle => l
    case Break => BreakOff(l)
  }

  /** `first` submissions succeed, and the next one, if any, fails. */
  function Submit(l: Loop, first: nat): Loop
    requires first <= TRANSFERS
  {
    var submitted := l.(active := first, usb := Usb(FirstTransfers(first), {}));
    var tried := if first < TRANSFERS then submitted.(state := FatalError) else submitted;
    if tried.state != Running then CancelAll(tried) else tried
  }

  function Reset(l: Loop, count: int): Loop {
    l.(count := 0, maxCount := count, complete := false, accepted := [])
  }

  /** Up to the wait for events. */
  function Start(l: Loop, count: int, first: nat): Loop
    requires first <= TRANSFERS
  {
    if l.state == FatalError then Reset(l, count) else Submit(Reset(l, count), first)
  }

  function Result(l: Loop): int {
    if l.state != CountLimit then -l.state.Code() else l.count
  }
}
