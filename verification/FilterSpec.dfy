/**
 * The NAK and SOF filter of tools/ovextcap/main.c as a state machine over packets, and the proof that what it
 * drops is decided by the few packets around each one.
 */
module FilterSpec {
  import opened Bytes

  // Packet identifiers, section 8.3.1, Table 8-1 of the Universal Serial Bus Specification Revision 2.0
  const DATA1: Byte := 0x4b
  const NAK: Byte := 0x5a
  const IN: Byte := 0x69
  const SPLIT: Byte := 0x78
  const SOF: Byte := 0xa5
  const PING: Byte := 0xb4
  const DATA0: Byte := 0xc3
  const OUT: Byte := 0xe1

  /** A packet to be recorded; there is always something captured. */
  datatype PcapPacket = PcapPacket(tsSec: U32, tsNsec: U32, origLen: U32, captured: seq<Byte>)
  {
    predicate Valid() { 0 < |captured| < 0x1_0000_0000 }

    function Pid(): Byte
      requires Valid()
    {
      captured[0]
    }
  }

  type Recorded = p: PcapPacket | p.Valid() witness PcapPacket(0, 0, 0, [0])

  datatype FilterState = Default | Split | Out | ExpectNak

  datatype Flags = Flags(naks: bool, sofs: bool)

  /** `out` is what has been forwarded. */
  datatype Filter = Filter(st: FilterState, queue: seq<Recorded>, out: seq<Recorded>)
  {
    function Enqueue(p: Recorded): Filter { this.(queue := queue + [p]) }
    function ForwardQueued(): Filter { this.(queue := [], out := out + queue) }
    function Forward(p: Recorded): Filter { this.(out := out + [p]) }

    function DiscardQueued(flags: Flags): Filter {
      if flags.naks then this.(queue := []) else ForwardQueued()
    }

    function Discard(flags: Flags, p: Recorded): Filter {
      if flags.naks then this else Forward(p)
    }

    function To(s: FilterState): Filter { this.(st := s) }

    /** What is held back in each state: at most two packets. */
    predicate Shape() {
      match st
      case Default => queue == []
      case Split => queue == []
      case Out => |queue| == 1 && IsOut(queue[0])
      case ExpectNak =>
        || (|queue| == 1 && IsPoll(queue[0]))
        || (|queue| == 2 && IsOut(queue[0]) && IsData(queue[1]))
    }
  }

  const INITIAL_FILTER := Filter(Default, [], [])

  function FilterStep(flags: Flags, f: Filter, p: Recorded): Filter {
    var pid := p.Pid();
    if pid == SOF then
      if f.st == Default then (if flags.sofs then f else f.Forward(p))
      else f.ForwardQueued().Forward(p).To(Default)
    else if pid == SPLIT then f.ForwardQueued().Forward(p).To(Split)
    else if f.st == Split then f.Forward(p).To(Default)
    else if pid == OUT then f.ForwardQueued().Enqueue(p).To(Out)
    else if f.st == Out && (pid == DATA0 || pid == DATA1) then f.Enqueue(p).To(ExpectNak)
    else if pid == IN || pid == PING then f.ForwardQueued().Enqueue(p).To(ExpectNak)
    else if f.st == ExpectNak && pid == NAK then f.DiscardQueued(flags).Discard(flags, p).To(Default)
    else f.ForwardQueued().Forward(p).To(Default)
  }

  lemma ShapeKept(flags: Flags, f: Filter, p: Recorded)
    requires f.Shape()
    ensures FilterStep(flags, f, p).Shape()
  {
  }

  /** The filter after the packets `ps`. */
  function Filtered(flags: Flags, ps: seq<Recorded>): Filter {
    if ps == [] then INITIAL_FILTER
    else FilterStep(flags, Filtered(flags, ps[..|ps| - 1]), ps[|ps| - 1])
  }

  // ---------------------------------------------------------------- the local specification

  // Packet identifiers as numbers, independent of those of the filter

  predicate AfterSplit(ps: seq<Recorded>, i: nat)
    requires i <= |ps|
  {
    i > 0 && ps[i - 1].Pid() == 0x78
  }

  predicate IsPoll(p: Recorded) { p.Pid() == 0x69 || p.Pid() == 0xb4 }
  predicate IsOut(p: Recorded) { p.Pid() == 0xe1 }
  predicate IsData(p: Recorded) { p.Pid() == 0xc3 || p.Pid() == 0x4b }
  predicate IsNak(p: Recorded) { p.Pid() == 0x5a }

  /** The length of the transaction answered by NAK that starts at `i`, or 0. */
  function NakWindow(ps: seq<Recorded>, i: nat): nat
    requires i < |ps|
  {
    if AfterSplit(ps, i) then 0
    else if IsPoll(ps[i]) && i + 1 < |ps| && IsNak(ps[i + 1]) then 2
    else if IsOut(ps[i]) && i + 2 < |ps| && IsData(ps[i + 1]) && IsNak(ps[i + 2]) then 3
    else 0
  }

  /** Packet `i` belongs to a transaction answered by NAK. */
  predicate InNakWindow(ps: seq<Recorded>, i: nat)
    requires i < |ps|
  {
    || NakWindow(ps, i) > 0
    || (i >= 1 && NakWindow(ps, i - 1) > 1)
    || (i >= 2 && NakWindow(ps, i - 2) > 2)
  }

  /** What is open after `ps`: the packets at its end that a NAK would complete to a transaction. */
  function OpenLength(ps: seq<Recorded>): (n: nat)
    ensures n <= |ps|
  {
    var n := |ps|;
    if n >= 1 && !AfterSplit(ps, n - 1) && (IsPoll(ps[n - 1]) || IsOut(ps[n - 1])) then 1
    else if n >= 2 && !AfterSplit(ps, n - 2) && IsOut(ps[n - 2]) && IsData(ps[n - 1]) then 2
    else 0
  }

  /** The filter's state after `ps`: it depends on the last three packets at most. */
  function LocalState(ps: seq<Recorded>): FilterState {
    var n := |ps|;
    if AfterSplit(ps, n) then Split
    else if OpenLength(ps) == 1 && IsOut(ps[n - 1]) then Out
    else if OpenLength(ps) > 0 then ExpectNak
    else Default
  }

  /** Packet `i` is a SOF between transactions. */
  predicate IdleSof(ps: seq<Recorded>, i: nat)
    requires i < |ps|
  {
    ps[i].Pid() == 0xa5 && LocalState(ps[..i]) == Default
  }

  predicate Dropped(flags: Flags, ps: seq<Recorded>, i: nat)
    requires i < |ps|
  {
    (flags.naks && InNakWindow(ps, i)) || (flags.sofs && IdleSof(ps, i))
  }

  /** The first `n` packets of `ps` less those dropped. */
  function Kept(flags: Flags, ps: seq<Recorded>, n: nat): seq<Recorded>
    requires n <= |ps|
  {
    if n == 0 then []
    else Kept(flags, ps, n - 1) + (if Dropped(flags, ps, n - 1) then [] else [ps[n - 1]])
  }

  // ---------------------------------------------------------------- the filter is local

  /** One more packet completes at most the open transaction; it changes no other decision. */
  lemma DroppedStable(flags: Flags, ps: seq<Recorded>, p: Recorded, i: nat)
    requires i < |ps|
    ensures
      var closes := IsNak(p) && LocalState(ps) == ExpectNak && i >= |ps| - OpenLength(ps);
      Dropped(flags, ps + [p], i) == (Dropped(flags, ps, i) || (flags.naks && closes))
  {
    var qs := ps + [p];
    assert qs[..i] == ps[..i];
    assert forall j | 0 <= j < |ps| :: qs[j] == ps[j];
    WindowStable(ps, p, i);
    if i >= 1 { WindowStable(ps, p, i - 1); }
    if i >= 2 { WindowStable(ps, p, i - 2); }
  }

  lemma WindowStable(ps: seq<Recorded>, p: Recorded, j: nat)
    requires j < |ps|
    ensures
      var closes := IsNak(p) && LocalState(ps) == ExpectNak && j == |ps| - OpenLength(ps);
      NakWindow(ps + [p], j) == if closes then OpenLength(ps) + 1 else NakWindow(ps, j)
  {
    var qs := ps + [p];
    assert forall k | 0 <= k < |ps| :: qs[k] == ps[k];
    assert qs[|ps|] == p;
  }

  /** Decisions that do not change keep the same packets. */
  lemma {:induction false} KeptStable(flags: Flags, ps: seq<Recorded>, p: Recorded, n: nat)
    requires n <= |ps|
    requires IsNak(p) && LocalState(ps) == ExpectNak ==> n <= |ps| - OpenLength(ps)
    ensures Kept(flags, ps + [p], n) == Kept(flags, ps, n)
  {
    if n > 0 {
      DroppedStable(flags, ps, p, n - 1);
      KeptStable(flags, ps, p, n - 1);
    }
  }

  /** Packets of which none is dropped are all kept. */
  lemma {:induction false} KeptAll(flags: Flags, ps: seq<Recorded>, m: nat, n: nat)
    requires m <= n <= |ps|
    requires forall i | m <= i < n :: !Dropped(flags, ps, i)
    ensures Kept(flags, ps, n) == Kept(flags, ps, m) + ps[m..n]
  {
    if m < n {
      KeptAll(flags, ps, m, n - 1);
      assert ps[m..n] == ps[m..n - 1] + [ps[n - 1]];
    } else {
      assert ps[m..n] == [];
    }
  }

  /** Packets that are all dropped add nothing. */
  lemma {:induction false} KeptNone(flags: Flags, ps: seq<Recorded>, m: nat, n: nat)
    requires m <= n <= |ps|
    requires forall i | m <= i < n :: Dropped(flags, ps, i)
    ensures Kept(flags, ps, n) == Kept(flags, ps, m)
  {
    if m < n {
      KeptNone(flags, ps, m, n - 1);
    }
  }

  /** The next state follows from the state and the packet, whatever is filtered. */
  function NextState(st: FilterState, p: Recorded): FilterState {
    if p.Pid() == SPLIT then Split
    else if st == Split then Default
    else if IsOut(p) then Out
    else if IsPoll(p) || (IsData(p) && st == Out) then ExpectNak
    else Default
  }

  /** And so does how many packets are open then. */
  function NextOpen(st: FilterState, p: Recorded): nat {
    if st == Split then 0
    else if IsPoll(p) || IsOut(p) then 1
    else if IsData(p) && st == Out then 2
    else 0
  }

  lemma OpenSnoc(ps: seq<Recorded>, p: Recorded)
    ensures LocalState(ps + [p]) == NextState(LocalState(ps), p)
    ensures OpenLength(ps + [p]) == NextOpen(LocalState(ps), p)
    ensures OpenLength(ps + [p]) == 2 ==> OpenLength(ps) == 1
  {
    var qs := ps + [p];
    assert qs[|ps|] == p;
    assert forall i | 0 <= i < |ps| :: qs[i] == ps[i];
  }

  predicate Drops(flags: Flags, st: FilterState, p: Recorded) {
    (flags.naks && IsNak(p) && st == ExpectNak) || (flags.sofs && p.Pid() == SOF && st == Default)
  }

  /** What the filter is after `ps`, in terms of the packets alone. */
  ghost predicate IsLocal(flags: Flags, ps: seq<Recorded>, f: Filter) {
    var m := |ps| - OpenLength(ps);
    && f.st == LocalState(ps)
    && f.queue == ps[m..]
    && f.out == Kept(flags, ps, m)
    && forall i | m <= i < |ps| :: !Dropped(flags, ps, i)
  }

  lemma FilterStepLocal(flags: Flags, ps: seq<Recorded>, f: Filter, p: Recorded)
    requires IsLocal(flags, ps, f)
    ensures IsLocal(flags, ps + [p], FilterStep(flags, f, p))
  {
    StepHasEffect(flags, f, p);
    StepForwards(flags, ps, f, p, FilterStep(flags, f, p));
    KeptGrows(flags, ps, p);
  }

  /** One more packet drops all that is open, or none of it. */
  lemma OpenDecided(flags: Flags, ps: seq<Recorded>, p: Recorded)
    requires forall i | |ps| - OpenLength(ps) <= i < |ps| :: !Dropped(flags, ps, i)
    ensures forall i | |ps| - OpenLength(ps) <= i < |ps| ::
              Dropped(flags, ps + [p], i) == (flags.naks && IsNak(p) && LocalState(ps) == ExpectNak)
  {
    forall i | |ps| - OpenLength(ps) <= i < |ps|
      ensures Dropped(flags, ps + [p], i) == (flags.naks && IsNak(p) && LocalState(ps) == ExpectNak)
    {
      DroppedStable(flags, ps, p, i);
    }
  }

  /** A dropped packet leaves nothing open: it is a NAK where one is expected, or a SOF where nothing is open. */
  lemma DropsClose(flags: Flags, ps: seq<Recorded>, p: Recorded)
    requires Drops(flags, LocalState(ps), p)
    ensures OpenLength(ps + [p]) == 0
    ensures (flags.naks && IsNak(p) && LocalState(ps) == ExpectNak) || OpenLength(ps) == 0
  {
    OpenSnoc(ps, p);
  }

  /** And all that was open is dropped with it. */
  lemma AllDropped(flags: Flags, ps: seq<Recorded>, p: Recorded)
    requires forall i | |ps| - OpenLength(ps) <= i < |ps| :: !Dropped(flags, ps, i)
    requires Dropped(flags, ps + [p], |ps|)
    ensures OpenLength(ps + [p]) == 0
    ensures forall i | |ps| - OpenLength(ps) <= i < |ps| + 1 :: Dropped(flags, ps + [p], i)
  {
    LastDropped(flags, ps, p);
    DropsClose(flags, ps, p);
    OpenDecided(flags, ps, p);
  }

  /** A dropped packet closes what is open, and nothing of it is kept. */
  lemma KeptClosed(flags: Flags, ps: seq<Recorded>, p: Recorded)
    requires forall i | |ps| - OpenLength(ps) <= i < |ps| :: !Dropped(flags, ps, i)
    requires Dropped(flags, ps + [p], |ps|)
    ensures OpenLength(ps + [p]) == 0
    ensures Kept(flags, ps + [p], |ps| + 1) == Kept(flags, ps, |ps| - OpenLength(ps))
  {
    AllDropped(flags, ps, p);
    KeptStable(flags, ps, p, |ps| - OpenLength(ps));
    KeptNone(flags, ps + [p], |ps| - OpenLength(ps), |ps| + 1);
  }

  /** With a packet that is not dropped, nothing open is dropped either. */
  lemma NoneDropped(flags: Flags, ps: seq<Recorded>, p: Recorded)
    requires forall i | |ps| - OpenLength(ps) <= i < |ps| :: !Dropped(flags, ps, i)
    requires !Dropped(flags, ps + [p], |ps|)
    ensures forall i | |ps| - OpenLength(ps) <= i < |ps| + 1 :: !Dropped(flags, ps + [p], i)
  {
    LastDropped(flags, ps, p);
    OpenDecided(flags, ps, p);
  }

  /** What one more packet adds to the packets that are kept and no longer open. */
  lemma KeptGrows(flags: Flags, ps: seq<Recorded>, p: Recorded)
    requires forall i | |ps| - OpenLength(ps) <= i < |ps| :: !Dropped(flags, ps, i)
    ensures
      var qs, n := ps + [p], |ps|;
      var m, m' := n - OpenLength(ps), |qs| - OpenLength(qs);
      && (Dropped(flags, qs, n) ==> m' == n + 1 && Kept(flags, qs, m') == Kept(flags, ps, m))
      && (!Dropped(flags, qs, n) ==> m <= m' && Kept(flags, qs, m') == Kept(flags, ps, m) + qs[m..m'])
      && forall i | m' <= i < |qs| :: !Dropped(flags, qs, i)
  {
    var m := |ps| - OpenLength(ps);
    if Dropped(flags, ps + [p], |ps|) {
      KeptClosed(flags, ps, p);
    } else {
      OpenSnoc(ps, p);
      KeptStable(flags, ps, p, m);
      NoneDropped(flags, ps, p);
      KeptAll(flags, ps + [p], m, |ps| + 1 - OpenLength(ps + [p]));
    }
  }

  lemma LastDropped(flags: Flags, ps: seq<Recorded>, p: Recorded)
    ensures
      Dropped(flags, ps + [p], |ps|) == Drops(flags, LocalState(ps), p)
  {
    var qs, n := ps + [p], |ps|;
    assert qs[..n] == ps;
    if n >= 1 { WindowStable(ps, p, n - 1); }
    if n >= 2 { WindowStable(ps, p, n - 2); }
  }

  /**
   * The effect of a step: the queue is kept, or forwarded or discarded as a whole, with the packet before or behind.
   */
  ghost predicate StepEffect(flags: Flags, f: Filter, p: Recorded, g: Filter) {
    && g.st == NextState(f.st, p)
    && if Drops(flags, f.st, p) then g.out == f.out && g.queue == []
       else if f.st == Out && IsData(p) then g.out == f.out && g.queue == f.queue + [p]
       else if (IsPoll(p) || IsOut(p)) && f.st != Split then g.out == f.out + f.queue && g.queue == [p]
       else g.out == f.out + (f.queue + [p]) && g.queue == []
  }

  lemma StepHasEffect(flags: Flags, f: Filter, p: Recorded)
    requires f.st == Default || f.st == Split ==> f.queue == []
    ensures StepEffect(flags, f, p, FilterStep(flags, f, p))
  {
    assert f.out + f.queue + [p] == f.out + (f.queue + [p]);
  }

  lemma QueueSlices(ps: seq<Recorded>, p: Recorded, m: nat)
    requires m <= |ps|
    ensures
      var qs, n := ps + [p], |ps|;
      && qs[m..] == qs[m..n + 1] == ps[m..] + [p] && qs[m..n] == ps[m..]
      && qs[n..] == [p] && qs[n + 1..] == [] && qs[m..m] == []
  {
  }

  /** The slices a step moves: the queue began at `m`, and `open` packets are in it afterwards. */
  lemma StepTo(flags: Flags, ps: seq<Recorded>, p: Recorded, m: nat, open: nat, f: Filter, g: Filter)
    requires m <= |ps| && f.queue == ps[m..] && StepEffect(flags, f, p, g)
    requires open == NextOpen(f.st, p) && (open == 2 ==> m + 1 == |ps|)
    ensures
      var qs, m' := ps + [p], |ps| + 1 - open;
      && g.queue == qs[m'..]
      && (if Drops(flags, f.st, p) then g.out == f.out && open == 0 else m <= m' && g.out == f.out + qs[m..m'])
  {
    QueueSlices(ps, p, m);
    assert f.out + [] == f.out;
  }

  /** A step forwards what is no longer open, unless it drops the packet. */
  lemma StepForwards(flags: Flags, ps: seq<Recorded>, f: Filter, p: Recorded, g: Filter)
    requires f.st == LocalState(ps) && f.queue == ps[|ps| - OpenLength(ps)..] && StepEffect(flags, f, p, g)
    ensures
      var qs := ps + [p];
      var m, m' := |ps| - OpenLength(ps), |qs| - OpenLength(qs);
      && g.st == LocalState(qs) && g.queue == qs[m'..]
      && (Dropped(flags, qs, |ps|) ==> g.out == f.out && m' == |qs|)
      && (!Dropped(flags, qs, |ps|) ==> m <= m' && g.out == f.out + qs[m..m'])
  {
    LastDropped(flags, ps, p);
    OpenSnoc(ps, p);
    var m := |ps| - OpenLength(ps);
    StepTo(flags, ps, p, m, OpenLength(ps + [p]), f, g);
  }

  lemma {:induction false} FilterIsLocal(flags: Flags, ps: seq<Recorded>)
    ensures IsLocal(flags, ps, Filtered(flags, ps))
  {
    if ps != [] {
      var n := |ps| - 1;
      FilterIsLocal(flags, ps[..n]);
      FilterStepLocal(flags, ps[..n], Filtered(flags, ps[..n]), ps[n]);
      assert ps[..n] + [ps[n]] == ps;
    }
  }

  // ---------------------------------------------------------------- what users see

  /** Output followed by the pending queue: the input in order, less the packets the windows drop. */
  lemma FilterDropsWindows(flags: Flags, ps: seq<Recorded>)
    ensures
      var f := Filtered(flags, ps);
      && f.st == LocalState(ps)
      && f.queue == ps[|ps| - OpenLength(ps)..]
      && f.out + f.queue == Kept(flags, ps, |ps|)
  {
    FilterIsLocal(flags, ps);
    var m := |ps| - OpenLength(ps);
    KeptAll(flags, ps, m, |ps|);
    assert ps[m..|ps|] == ps[m..];
  }

  /** What is written when the capture ends after `ps`: the queue is discarded. */
  function Written(flags: Flags, ps: seq<Recorded>): seq<Recorded> {
    Filtered(flags, ps).DiscardQueued(flags).out
  }

  /** The final flush drops only the transaction still open, and only when NAKs are filtered. */
  lemma FlushDropsOpen(flags: Flags, ps: seq<Recorded>)
    ensures Written(flags, ps) == Kept(flags, ps, if flags.naks then |ps| - OpenLength(ps) else |ps|)
  {
    FilterDropsWindows(flags, ps);
    FilterIsLocal(flags, ps);
  }

  // ---------------------------------------------------------------- two options at once

  /** Packet `i` is in the output when the capture ends: it is neither dropped nor discarded in an open transaction. */
  predicate IsWritten(flags: Flags, ps: seq<Recorded>, i: nat)
    requires i < |ps|
  {
    !Dropped(flags, ps, i) && (flags.naks ==> i < |ps| - OpenLength(ps))
  }

  /** The indices of the packets that are written. */
  function Writes(flags: Flags, ps: seq<Recorded>): set<nat> {
    set i: nat | i < |ps| && IsWritten(flags, ps, i)
  }

  /** Of the first `n` packets those with an index in `keep`. */
  function Select(ps: seq<Recorded>, keep: set<nat>, n: nat): seq<Recorded>
    requires n <= |ps|
  {
    if n == 0 then [] else Select(ps, keep, n - 1) + (if n - 1 in keep then [ps[n - 1]] else [])
  }

  lemma {:induction false} KeptIsSelection(flags: Flags, ps: seq<Recorded>, n: nat)
    requires n <= |ps|
    requires flags.naks ==> n <= |ps| - OpenLength(ps)
    ensures Kept(flags, ps, n) == Select(ps, Writes(flags, ps), n)
  {
    if n > 0 {
      KeptIsSelection(flags, ps, n - 1);
    }
  }

  lemma {:induction false} SelectNoMore(ps: seq<Recorded>, keep: set<nat>, m: nat, n: nat)
    requires m <= n <= |ps|
    requires forall i: nat | i in keep :: i < m
    ensures Select(ps, keep, n) == Select(ps, keep, m)
  {
    if m < n {
      SelectNoMore(ps, keep, m, n - 1);
    }
  }

  /** The output is the packets at the written indices. */
  lemma WrittenIsSelection(flags: Flags, ps: seq<Recorded>)
    ensures Written(flags, ps) == Select(ps, Writes(flags, ps), |ps|)
  {
    FlushDropsOpen(flags, ps);
    var m := if flags.naks then |ps| - OpenLength(ps) else |ps|;
    KeptIsSelection(flags, ps, m);
    SelectNoMore(ps, Writes(flags, ps), m, |ps|);
  }

  /** A packet is written with both options iff it is written with each of them. */
  lemma BothWrite(ps: seq<Recorded>)
    ensures Writes(Flags(true, true), ps) == Writes(Flags(true, false), ps) * Writes(Flags(false, true), ps)
  {
  }

  /**
   * Neither option changes the state, or what is pending; without options everything is written; and with both the
   * output has the packets at the indices that are in the output with either option alone.
   */
  lemma FlagsAreOrthogonal(flags: Flags, ps: seq<Recorded>)
    ensures Filtered(flags, ps).st == Filtered(Flags(false, false), ps).st
    ensures Filtered(flags, ps).queue == Filtered(Flags(false, false), ps).queue
    ensures Written(Flags(false, false), ps) == ps
    ensures
      var naks, sofs := Writes(Flags(true, false), ps), Writes(Flags(false, true), ps);
      && Written(Flags(true, false), ps) == Select(ps, naks, |ps|)
      && Written(Flags(false, true), ps) == Select(ps, sofs, |ps|)
      && Written(Flags(true, true), ps) == Select(ps, naks * sofs, |ps|)
  {
    FilterIsLocal(flags, ps);
    FilterIsLocal(Flags(false, false), ps);
    FlushDropsOpen(Flags(false, false), ps);
    KeptAll(Flags(false, false), ps, 0, |ps|);
    assert ps[0..|ps|] == ps;
    WrittenIsSelection(Flags(true, false), ps);
    WrittenIsSelection(Flags(false, true), ps);
    WrittenIsSelection(Flags(true, true), ps);
    BothWrite(ps);
  }

  /** No packet is dropped by both options. */
  lemma NotDroppedTwice(ps: seq<Recorded>, i: nat)
    requires i < |ps|
    ensures i in Writes(Flags(true, false), ps) || i in Writes(Flags(false, true), ps)
  {
    assert InNakWindow(ps, i) || i >= |ps| - OpenLength(ps) ==> ps[i].Pid() != SOF;
  }

  /** How often `p` is in `s`. */
  function Count(s: seq<Recorded>, p: Recorded): nat {
    if s == [] then 0 else Count(s[..|s| - 1], p) + (if s[|s| - 1] == p then 1 else 0)
  }

  /** How often `p` is at an index in `keep`. */
  function Tally(ps: seq<Recorded>, keep: set<nat>, n: nat, p: Recorded): nat
    requires n <= |ps|
  {
    if n == 0 then 0 else Tally(ps, keep, n - 1, p) + (if n - 1 in keep && ps[n - 1] == p then 1 else 0)
  }

  lemma {:induction false} SelectTally(ps: seq<Recorded>, keep: set<nat>, n: nat, p: Recorded)
    requires n <= |ps|
    ensures Count(Select(ps, keep, n), p) == Tally(ps, keep, n, p)
  {
    if n > 0 {
      SelectTally(ps, keep, n - 1, p);
      var before := Select(ps, keep, n - 1);
      assert (before + [ps[n - 1]])[..|before|] == before && before + [] == before;
    }
  }

  /** Inclusion and exclusion. */
  lemma {:induction false} TalliesAddUp(ps: seq<Recorded>, a: set<nat>, b: set<nat>, n: nat, p: Recorded)
    requires n <= |ps|
    ensures Tally(ps, a * b, n, p) + Tally(ps, a + b, n, p) == Tally(ps, a, n, p) + Tally(ps, b, n, p)
  {
    if n > 0 {
      TalliesAddUp(ps, a, b, n - 1, p);
    }
  }

  lemma {:induction false} SelectAll(ps: seq<Recorded>, keep: set<nat>, n: nat)
    requires n <= |ps|
    requires forall i: nat | i < n :: i in keep
    ensures Select(ps, keep, n) == ps[..n]
  {
    if n > 0 {
      SelectAll(ps, keep, n - 1);
      assert ps[..n] == ps[..n - 1] + [ps[n - 1]];
    }
  }

  /**
   * The options add up: every packet is in the output of both, and in the input, as often as in the outputs of each.
   */
  lemma FlagsAddUp(ps: seq<Recorded>, p: Recorded)
    ensures Count(Written(Flags(true, true), ps), p) + Count(ps, p)
         == Count(Written(Flags(true, false), ps), p) + Count(Written(Flags(false, true), ps), p)
  {
    var naks, sofs := Writes(Flags(true, false), ps), Writes(Flags(false, true), ps);
    FlagsAreOrthogonal(Flags(false, false), ps);
    forall i: nat | i < |ps|
      ensures i in naks + sofs
    {
      NotDroppedTwice(ps, i);
    }
    SelectAll(ps, naks + sofs, |ps|);
    assert ps[..|ps|] == ps;
    SelectTally(ps, naks + sofs, |ps|, p);
    SelectTally(ps, naks * sofs, |ps|, p);
    SelectTally(ps, naks, |ps|, p);
    SelectTally(ps, sofs, |ps|, p);
    TalliesAddUp(ps, naks, sofs, |ps|, p);
  }

  const SOFS_ONLY := Flags(false, true)

  /** Without NAK filtering a step keeps every packet but an idle SOF. */
  lemma SofStep(f: Filter, p: Recorded)
    requires f.st == Default || f.st == Split ==> f.queue == []
    ensures
      var g := FilterStep(SOFS_ONLY, f, p);
      && g.out + g.queue == f.out + f.queue + (if p.Pid() == SOF && f.st == Default then [] else [p])
      && (p.Pid() == SOF && f.st == Default ==> g == f)
      && (g.st == Default || g.st == Split ==> g.queue == [])
  {
  }

  /** The state follows from the state before and the packet. */
  lemma StateStep(flags: Flags, f: Filter, g: Filter, p: Recorded)
    requires f.st == g.st
    ensures FilterStep(flags, f, p).st == FilterStep(flags, g, p).st
  {
  }

  /** The packets a SOF filter passes take it through the same states, and it passes all of them again. */
  lemma {:induction false} SofPassesAgain(ps: seq<Recorded>)
    ensures
      var f := Filtered(SOFS_ONLY, ps);
      var g := Filtered(SOFS_ONLY, f.out + f.queue);
      && (f.st == Default || f.st == Split ==> f.queue == [])
      && (g.st == Default || g.st == Split ==> g.queue == [])
      && g.st == f.st && g.out + g.queue == f.out + f.queue
  {
    if ps != [] {
      var n := |ps| - 1;
      var p := ps[n];
      SofPassesAgain(ps[..n]);
      var f := Filtered(SOFS_ONLY, ps[..n]);
      var total := f.out + f.queue;
      var g := Filtered(SOFS_ONLY, total);
      SofStep(f, p);
      SofStep(g, p);
      StateStep(SOFS_ONLY, f, g, p);
      if !(p.Pid() == SOF && f.st == Default) {
        assert (total + [p])[..|total|] == total;
        assert Filtered(SOFS_ONLY, total + [p]) == FilterStep(SOFS_ONLY, g, p);
      } else {
        assert total + [] == total;
      }
    }
  }

  /** Filtering SOFs twice is filtering them once. */
  lemma SofFilterIdempotent(ps: seq<Recorded>)
    ensures Written(SOFS_ONLY, Written(SOFS_ONLY, ps)) == Written(SOFS_ONLY, ps)
  {
    SofPassesAgain(ps);
  }
}
