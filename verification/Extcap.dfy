/**
 * The packet handler of tools/ovextcap/main.c: it converts times, writes pcap records, and holds back in a
 * linked list the records a NAK may still discard.
 */
module Extcap {
  import opened Bytes
  import opened Stream
  import opened DecoderSpec
  import opened OvPackets
  import opened Clock
  import opened FilterSpec

  function Low(x: U32): U16 { x % 0x1_0000 }
  function High(x: U32): U16 { x / 0x1_0000 }

  /** A 32-bit number as it lies in memory, least significant byte first. */
  function Bytes32(x: U32): seq<Byte> {
    [Low(x) % 0x100, Low(x) / 0x100, High(x) % 0x100, High(x) / 0x100]
  }

  function Fields(xs: seq<U32>): (f: seq<Byte>)
    ensures |f| == 4 * |xs|
  {
    if xs == [] then [] else Bytes32(xs[0]) + Fields(xs[1..])
  }

  /** A pcap record: four header fields, and the captured bytes. */
  function Record(p: Recorded): seq<Byte> {
    Fields([p.tsSec, p.tsNsec, |p.captured|, p.origLen]) + p.captured
  }

  function Records(ps: seq<Recorded>): seq<Byte> {
    if ps == [] then [] else Records(ps[..|ps| - 1]) + Record(ps[|ps| - 1])
  }

  lemma FourFields(a: U32, b: U32, c: U32, d: U32)
    ensures Fields([a, b, c, d]) == Bytes32(a) + Bytes32(b) + Bytes32(c) + Bytes32(d)
  {
    assert [a, b, c, d][1..] == [b, c, d] && [b, c, d][1..] == [c, d] && [c, d][1..] == [d] && [d][1..] == [];
    assert Fields([d]) == Bytes32(d);
    assert Fields([c, d]) == Bytes32(c) + Bytes32(d);
    assert Fields([b, c, d]) == Bytes32(b) + (Bytes32(c) + Bytes32(d));
  }

  /** A field of a header in a file. */
  function U32At(file: seq<Byte>, i: nat): U32
    requires i + 4 <= |file|
  {
    U32Of(file[i], file[i + 1], file[i + 2], file[i + 3])
  }

  function U32Of(b0: Byte, b1: Byte, b2: Byte, b3: Byte): U32 {
    b0 + 0x100 * b1 + 0x1_0000 * (b2 + 0x100 * b3)
  }

  lemma Bytes32Inverse(x: U32)
    ensures U32Of(Low(x) % 0x100, Low(x) / 0x100, High(x) % 0x100, High(x) / 0x100) == x
  {
    WordBytes(Low(x));
    WordBytes(High(x));
  }

  lemma WordBytes(w: U16)
    ensures w % 0x100 + 0x100 * (w / 0x100) == w
  {
  }

  /** A reader of the format: header fields at their offsets, then as many bytes as the header says. */
  function ReadRecord(file: seq<Byte>): (r: Recorded)
    requires |file| > 16 && 0 < U32At(file, 8) <= |file| - 16
  {
    PcapPacket(U32At(file, 0), U32At(file, 4), U32At(file, 12), file[16..16 + U32At(file, 8)])
  }

  lemma HeaderFields(p: Recorded, rest: seq<Byte>)
    ensures
      var file := Record(p) + rest;
      && |file| > 16 && U32At(file, 0) == p.tsSec && U32At(file, 4) == p.tsNsec
      && U32At(file, 8) == |p.captured| && U32At(file, 12) == p.origLen
  {
    FourFields(p.tsSec, p.tsNsec, |p.captured|, p.origLen);
    Bytes32Inverse(p.tsSec);
    Bytes32Inverse(p.tsNsec);
    Bytes32Inverse(|p.captured|);
    Bytes32Inverse(p.origLen);
  }

  /** What was recorded first is read back first, and the rest follows it. */
  lemma RecordReadBack(p: Recorded, rest: seq<Byte>)
    ensures
      var file := Record(p) + rest;
      && |file| > 16 && U32At(file, 8) == |p.captured|
      && ReadRecord(file) == p && file[16 + |p.captured|..] == rest
  {
    HeaderFields(p, rest);
    var file := Record(p) + rest;
    assert file[16..16 + |p.captured|] == p.captured;
  }

  lemma FirstRecordUnique(p: Recorded, r: seq<Byte>, q: Recorded, t: seq<Byte>)
    requires Record(p) + r == Record(q) + t
    ensures p == q && r == t
  {
    RecordReadBack(p, r);
    RecordReadBack(q, t);
  }

  /** The file of a list of packets tells the packets: no two lists have the same file. */
  lemma {:induction false} RecordsInjective(a: seq<Recorded>, b: seq<Recorded>)
    requires Records(a) == Records(b)
    ensures a == b
    decreases |a|
  {
    if a != [] { RecordsCons(a); }
    if b != [] { RecordsCons(b); }
    if a != [] && b != [] {
      FirstRecordUnique(a[0], Records(a[1..]), b[0], Records(b[1..]));
      RecordsInjective(a[1..], b[1..]);
      assert a == [a[0]] + a[1..] && b == [b[0]] + b[1..];
    }
  }

  lemma {:induction false} RecordsCons(ps: seq<Recorded>)
    requires ps != []
    ensures Records(ps) == Record(ps[0]) + Records(ps[1..])
  {
    var n := |ps| - 1;
    if n == 0 {
      assert ps[..0] == [] && ps[1..] == [];
    } else {
      RecordsCons(ps[..n]);
      assert ps[1..][..n - 1] == ps[..n][1..];
      Assoc(Record(ps[0]), Records(ps[..n][1..]), Record(ps[n]));
    }
  }

  lemma {:induction false} RecordsConcat(a: seq<Recorded>, b: seq<Recorded>)
    ensures Records(a + b) == Records(a) + Records(b)
  {
    if b == [] {
      assert a + b == a;
    } else {
      var n := |b| - 1;
      assert (a + b)[..|a + b| - 1] == a + b[..n];
      RecordsConcat(a, b[..n]);
    }
  }

  /** struct pcap_packet: `captured` points into the packet the decoder fills. */
  datatype PcapRef = PcapRef(tsSec: U32, tsNsec: U32, inclLen: nat, origLen: U32, captured: array<Byte>)
  {
    predicate Valid() { 0 < inclLen <= captured.Length && inclLen < 0x1_0000_0000 }

    function Snapshot(): Recorded
      requires Valid()
      reads captured
    {
      PcapPacket(tsSec, tsNsec, origLen, captured[..inclLen])
    }
  }

  /** A copy of the record that writing the packet now would write. */
  method CopyRecord(pkt: PcapRef) returns (buffer: array<Byte>)
    requires pkt.Valid()
    ensures fresh(buffer) && buffer[..] == Record(pkt.Snapshot())
  {
    var header := Bytes32(pkt.tsSec) + Bytes32(pkt.tsNsec) + Bytes32(pkt.inclLen) + Bytes32(pkt.origLen);
    buffer := new Byte[16 + pkt.inclLen];
    forall i | 0 <= i < 16 { buffer[i] := header[i]; }
    forall i | 0 <= i < pkt.inclLen { buffer[16 + i] := pkt.captured[i]; }
    FourFields(pkt.tsSec, pkt.tsNsec, pkt.inclLen, pkt.origLen);
    assert buffer[..16] == header && buffer[16..] == pkt.captured[..pkt.inclLen];
    assert buffer[..] == buffer[..16] + buffer[16..];
  }

  /** Writes the header, field by field, and the captured bytes to the end of `file`. */
  method WritePacket(pkt: PcapRef, file: seq<Byte>) returns (written: seq<Byte>)
    requires pkt.Valid()
    ensures written == file + Record(pkt.Snapshot())
  {
    FourFields(pkt.tsSec, pkt.tsNsec, pkt.inclLen, pkt.origLen);
    written := file + Bytes32(pkt.tsSec);
    written := written + Bytes32(pkt.tsNsec);
    written := written + Bytes32(pkt.inclLen);
    written := written + Bytes32(pkt.origLen);
    written := written + pkt.captured[..pkt.inclLen];
  }

  /** Packets that are held back, in state `st`. */
  predicate Opens(st: FilterState, p: Recorded) {
    IsOut(p) || IsPoll(p) || (st == Out && IsData(p))
  }

  class RecordNode {
    var next: RecordNode?
    const record: array<Byte>

    constructor (record: array<Byte>)
      ensures next == null && this.record == record
    {
      next := null;
      this.record := record;
    }
  }

  class HandlerData {
    var out: seq<Byte>
    var debug: seq<Byte>
    var utcTs: U32
    var tsOffset: U32
    var lastOvTs: U64
    const flags: Flags
    var st: FilterState
    var queue: RecordNode?

    ghost var nodes: seq<RecordNode>
    /** The nodes and their records. */
    ghost var Repr: set<object>
    /** The bytes of the queued records. */
    ghost var lines: seq<seq<Byte>>
    /** The packets whose records are in the queue, and in the output. */
    ghost var queued: seq<Recorded>
    ghost var written: seq<Recorded>

    /** The queue is a list of records. */
    ghost predicate ValidList()
      reads this`queue, this`nodes, this`lines, this`Repr, Repr
    {
      && |lines| == |nodes|
      && (forall i | 0 <= i < |nodes| :: nodes[i] in Repr && nodes[i].record in Repr)
      && queue == (if nodes == [] then null else nodes[0])
      && (forall i {:trigger nodes[i].next} | 0 <= i < |nodes| ::
            nodes[i].next == if i + 1 < |nodes| then nodes[i + 1] else null)
      && (forall i, j | 0 <= i < j < |nodes| :: nodes[i] != nodes[j])
      && (forall i {:trigger nodes[i].record} | 0 <= i < |nodes| :: nodes[i].record[..] == lines[i])
    }

    /** They are the records of `queued`, copied when they were queued. */
    ghost predicate ValidQueue()
      reads this`queue, this`nodes, this`queued, this`lines, this`Repr, Repr
    {
      && ValidList()
      && |queued| == |lines|
      && forall i | 0 <= i < |lines| :: lines[i] == Record(queued[i])
    }

    ghost predicate Valid()
      reads this`queue, this`nodes, this`queued, this`lines, this`Repr, this`out, this`written, Repr
    {
      ValidQueue() && out == Records(written)
    }

    ghost function Filtering(): Filter
      reads this`st, this`queued, this`written
    {
      Filter(st, queued, written)
    }

    function Time(): Clock
      reads this`utcTs, this`tsOffset, this`lastOvTs
    {
      Clock(utcTs, tsOffset, lastOvTs)
    }

    constructor (flags: Flags, sec: U32, nsec: U32)
      requires nsec < NANOS
      ensures Valid() && nodes == [] && Repr == {} && this.flags == flags
      ensures Filtering() == INITIAL_FILTER && Time() == StartClock(sec, nsec)
      ensures out == [] && debug == []
    {
      out, debug := [], [];
      utcTs, lastOvTs := sec, 0;
      tsOffset := nsec / 17 + nsec / 850;
      this.flags := flags;
      st := Default;
      queue, nodes, lines, Repr := null, [], [], {};
      queued, written := [], [];
    }

    /** The node at the end of the list. */
    method LastNode() returns (ptr: RecordNode)
      requires ValidList() && queue != null
      ensures ptr == nodes[|nodes| - 1]
    {
      ptr := queue;
      ghost var i := 0;
      while ptr.next != null
        invariant 0 <= i < |nodes| && ptr == nodes[i]
        decreases |nodes| - i
      {
        ptr := ptr.next;
        i := i + 1;
      }
    }

    /** Appends a record to the list. */
    method Append(buffer: array<Byte>)
      requires ValidList()
      modifies this`queue, this`nodes, this`lines, this`Repr, nodes
      ensures ValidList() && lines == old(lines) + [buffer[..]]
      ensures fresh(Repr - old(Repr) - {buffer})
    {
      var node := new RecordNode(buffer);
      if queue == null {
        queue := node;
      } else {
        var ptr := LastNode();
        ptr.next := node;
      }
      nodes := nodes + [node];
      lines := lines + [buffer[..]];
      Repr := Repr + {node, buffer};
    }

    /** Queues a copy of the record. */
    method QueuePacket(pkt: PcapRef)
      requires Valid() && pkt.Valid()
      modifies this`queue, this`nodes, this`queued, this`lines, this`Repr, nodes
      ensures Valid() && fresh(Repr - old(Repr))
      ensures queued == old(queued) + [pkt.Snapshot()]
    {
      var buffer := CopyRecord(pkt);
      Append(buffer);
      queued := queued + [pkt.Snapshot()];
    }

    method FreeQueuedPackets()
      modifies this`queue, this`nodes, this`queued, this`lines, this`Repr
      ensures ValidQueue() && nodes == [] && queued == [] && Repr == {}
    {
      queue, nodes, queued, lines, Repr := null, [], [], [], {};
    }

    method WriteQueuedPackets()
      requires ValidQueue()
      modifies this`out
      ensures out == old(out) + Records(queued)
    {
      var ptr := queue;
      ghost var i := 0;
      assert queued[..0] == [];
      while ptr != null
        invariant 0 <= i <= |nodes|
        invariant ptr == if i < |nodes| then nodes[i] else null
        invariant out == old(out) + Records(queued[..i])
        decreases |nodes| - i
      {
        assert queued[..i + 1][..i] == queued[..i];
        Assoc(old(out), Records(queued[..i]), Record(queued[i]));
        out := out + ptr.record[..];
        ptr := ptr.next;
        i := i + 1;
      }
      assert queued[..i] == queued;
    }

    method ForwardQueuedPackets()
      requires Valid()
      modifies this`queue, this`nodes, this`queued, this`lines, this`Repr, this`out, this`written
      ensures Valid() && nodes == [] && Repr == {}
      ensures Filtering() == old(Filtering()).ForwardQueued()
    {
      WriteQueuedPackets();
      RecordsConcat(written, queued);
      written := written + queued;
      FreeQueuedPackets();
    }

    method DiscardQueuedPackets()
      requires Valid()
      modifies this`queue, this`nodes, this`queued, this`lines, this`Repr, this`out, this`written
      ensures Valid() && nodes == [] && Repr == {}
      ensures Filtering() == old(Filtering()).DiscardQueued(flags)
    {
      if !flags.naks {
        ForwardQueuedPackets();
      } else {
        FreeQueuedPackets();
      }
    }

    method ForwardPacket(pkt: PcapRef)
      requires Valid() && pkt.Valid()
      modifies this`out, this`written
      ensures Valid()
      ensures Filtering() == old(Filtering()).Forward(pkt.Snapshot())
    {
      out := WritePacket(pkt, out);
      RecordsConcat(written, [pkt.Snapshot()]);
      assert [pkt.Snapshot()][..0] == [];
      written := written + [pkt.Snapshot()];
    }

    method DiscardPacket(pkt: PcapRef)
      requires Valid() && pkt.Valid()
      modifies this`out, this`written
      ensures Valid()
      ensures Filtering() == old(Filtering()).Discard(flags, pkt.Snapshot())
    {
      if !flags.naks {
        ForwardPacket(pkt);
      }
    }

    method ForwardThen(pkt: PcapRef, next: FilterState)
      requires Valid() && pkt.Valid()
      modifies this`out, this`written, this`st
      ensures Valid()
      ensures Filtering() == old(Filtering()).Forward(pkt.Snapshot()).To(next)
    {
      ForwardPacket(pkt);
      st := next;
    }

    /** Ends what was pending: forwards the queue and the packet. */
    method ForwardAll(pkt: PcapRef, next: FilterState)
      requires Valid() && pkt.Valid()
      modifies this`queue, this`nodes, this`queued, this`lines, this`Repr, this`out, this`written, this`st
      ensures Valid() && nodes == [] && Repr == {}
      ensures Filtering() == old(Filtering()).ForwardQueued().Forward(pkt.Snapshot()).To(next)
    {
      ForwardQueuedPackets();
      ForwardPacket(pkt);
      st := next;
    }

    /** A transaction answered by NAK: discards the queue and the packet. */
    method DiscardAll(pkt: PcapRef)
      requires Valid() && pkt.Valid()
      modifies this`queue, this`nodes, this`queued, this`lines, this`Repr, this`out, this`written, this`st
      ensures Valid() && nodes == [] && Repr == {}
      ensures Filtering() == old(Filtering()).DiscardQueued(flags).Discard(flags, pkt.Snapshot()).To(Default)
    {
      DiscardQueuedPackets();
      DiscardPacket(pkt);
      st := Default;
    }

    /** Starts a transaction: forwards the queue and queues the packet. */
    method Requeue(pkt: PcapRef, next: FilterState)
      requires Valid() && pkt.Valid()
      modifies this`queue, this`nodes, this`queued, this`lines, this`Repr, this`out, this`written, this`st
      ensures Valid() && fresh(Repr - old(Repr))
      ensures Filtering() == old(Filtering()).ForwardQueued().Enqueue(pkt.Snapshot()).To(next)
    {
      ForwardQueuedPackets();
      QueuePacket(pkt);
      st := next;
    }

    /** The branches for a token or the data that a NAK may answer. */
    method FilterOpening(pkt: PcapRef)
      requires Valid() && pkt.Valid() && st != Split
      requires Opens(st, pkt.Snapshot())
      modifies this`queue, this`nodes, this`queued, this`lines, this`Repr, this`out, this`written, this`st, nodes
      ensures Valid() && fresh(Repr - old(Repr))
      ensures Filtering() == FilterStep(flags, old(Filtering()), pkt.Snapshot())
    {
      var pid := pkt.captured[0];
      if pid == OUT {
        Requeue(pkt, Out);
      } else if pid == IN || pid == PING {
        Requeue(pkt, ExpectNak);
      } else {
        QueuePacket(pkt);
        st := ExpectNak;
      }
    }

    /** The branches of the filter for a packet that may open, continue or end a transaction. */
    method FilterTransaction(pkt: PcapRef)
      requires Valid() && pkt.Valid()
      requires pkt.captured[0] != SOF && pkt.captured[0] != SPLIT && st != Split
      modifies this`queue, this`nodes, this`queued, this`lines, this`Repr, this`out, this`written, this`st, nodes
      ensures Valid() && fresh(Repr - old(Repr))
      ensures Filtering() == FilterStep(flags, old(Filtering()), pkt.Snapshot())
    {
      var pid := pkt.captured[0];
      if pid in {OUT, IN, PING} || (st == Out && (pid == DATA0 || pid == DATA1)) {
        FilterOpening(pkt);
      } else if st == ExpectNak && pid == NAK {
        DiscardAll(pkt);
      } else {
        ForwardAll(pkt, Default);
      }
    }

    method FilterSof(pkt: PcapRef)
      requires Valid() && pkt.Valid() && pkt.captured[0] == SOF
      modifies this`queue, this`nodes, this`queued, this`lines, this`Repr, this`out, this`written, this`st
      ensures Valid() && Repr <= old(Repr)
      ensures Filtering() == FilterStep(flags, old(Filtering()), pkt.Snapshot())
    {
      if st == Default {
        if !flags.sofs {
          ForwardPacket(pkt);
        }
      } else {
        ForwardAll(pkt, Default);
      }
    }

    /** The branches around a SPLIT: it and the packet after it are always forwarded. */
    method FilterSplit(pkt: PcapRef)
      requires Valid() && pkt.Valid()
      requires pkt.captured[0] != SOF && (pkt.captured[0] == SPLIT || st == Split)
      modifies this`queue, this`nodes, this`queued, this`lines, this`Repr, this`out, this`written, this`st
      ensures Valid() && Repr <= old(Repr)
      ensures Filtering() == FilterStep(flags, old(Filtering()), pkt.Snapshot())
    {
      if pkt.captured[0] == SPLIT {
        ForwardAll(pkt, Split);
      } else {
        ForwardThen(pkt, Default);
      }
    }

    method FilterPacket(pkt: PcapRef)
      requires Valid() && Filtering().Shape() && pkt.Valid()
      modifies this`queue, this`nodes, this`queued, this`lines, this`Repr, this`out, this`written, this`st, nodes
      ensures Valid() && Filtering().Shape() && fresh(Repr - old(Repr))
      ensures Filtering() == FilterStep(flags, old(Filtering()), pkt.Snapshot())
    {
      assert st == Default || st == Split ==> queue == null;
      ShapeKept(flags, Filtering(), pkt.Snapshot());
      if pkt.captured[0] == SOF {
        FilterSof(pkt);
      } else if pkt.captured[0] == SPLIT || st == Split {
        FilterSplit(pkt);
      } else {
        FilterTransaction(pkt);
      }
    }

    method AdvanceClock(timestamp: U64)
      modifies this`utcTs, this`tsOffset, this`lastOvTs
      ensures Time() == old(Time()).Tick(timestamp)
    {
      var diffTs := (timestamp - lastOvTs) % 0x1_0000_0000_0000_0000;
      lastOvTs := timestamp;
      var sum := (tsOffset + diffTs) % 0x1_0000_0000_0000_0000;
      utcTs := (utcTs + sum / 60_000_000) % 0x1_0000_0000;
      tsOffset := sum % 60_000_000;
    }

    method PcapOf(packet: OvPacket) returns (pkt: PcapRef)
      requires packet.size > 0 && packet.Header().CapturedSize() <= packet.data.Length
      ensures pkt.Valid() && pkt.captured == packet.data
      ensures pkt.Snapshot() == Captured(Time(), packet.Header(), packet.data[..packet.Header().CapturedSize()])
    {
      var nsec := (tsOffset * 17 - tsOffset / 3) % 0x1_0000_0000;
      var captured := packet.CapturedSize();
      pkt := PcapRef(utcTs, nsec, captured, packet.size, packet.data);
    }

    /** Writes a packet to the debug file, and filters it. */
    method HandlePcap(pkt: PcapRef)
      requires Valid() && Filtering().Shape() && pkt.Valid()
      modifies this`queue, this`nodes, this`queued, this`lines, this`Repr, this`out, this`written, this`st
      modifies this`debug, nodes
      ensures Valid() && Filtering().Shape() && fresh(Repr - old(Repr))
      ensures Filtering() == FilterStep(flags, old(Filtering()), pkt.Snapshot())
      ensures debug == old(debug) + Record(pkt.Snapshot())
    {
      debug := WritePacket(pkt, debug);
      FilterPacket(pkt);
    }

    /** A packet that was on the wire. */
    method RecordPacket(packet: OvPacket)
      requires Valid() && Filtering().Shape()
      requires packet.size > 0 && packet.Header().CapturedSize() <= packet.data.Length
      modifies this`queue, this`nodes, this`queued, this`lines, this`Repr, this`out, this`written, this`st
      modifies this`debug, nodes
      ensures Valid() && Filtering().Shape() && fresh(Repr - old(Repr))
      ensures
        var p := Captured(Time(), packet.Header(), packet.data[..packet.Header().CapturedSize()]);
        Filtering() == FilterStep(flags, old(Filtering()), p) && debug == old(debug) + Record(p)
    {
      var pkt := PcapOf(packet);
      HandlePcap(pkt);
    }

    /** One packet of the capture: its time, and its record if there was anything on the wire. */
    method PacketHandler(packet: OvPacket)
      requires Valid() && Filtering().Shape()
      requires packet.Header().CapturedSize() <= packet.data.Length
      modifies this, nodes
      ensures Valid() && Filtering().Shape() && fresh(Repr - old(Repr))
      ensures Time() == old(Time()).Tick(packet.timestamp)
      ensures packet.size == 0 ==> Filtering() == old(Filtering()) && debug == old(debug)
      ensures packet.size > 0 ==>
                var p := Captured(Time(), packet.Header(), packet.data[..packet.Header().CapturedSize()]);
                Filtering() == FilterStep(flags, old(Filtering()), p) && debug == old(debug) + Record(p)
    {
      AdvanceClock(packet.timestamp);
      if packet.size > 0 {
        RecordPacket(packet);
      }
    }
  }

  /** The record of a packet handled at `time`. */
  function Captured(time: Clock, h: Header, data: seq<Byte>): Recorded
    requires 0 < |data| < 0x1_0000_0000
  {
    PcapPacket(time.utc, time.Nanoseconds(), h.size, data)
  }
}
