/**
 * Packet times of tools/ovextcap/main.c: the device counts ticks of 60 MHz, a pcap record has seconds and
 * nanoseconds, and the conversion is incremental, one packet after the other.
 */
module Clock {
  import opened Bytes

  /** OV_TIMESTAMP_FREQ_HZ; written out where it divides, since division by a literal is linear. */
  const FREQ: nat := 60_000_000
  const NANOS: nat := 1_000_000_000
  const TWO_32: int := 0x1_0000_0000

  /** `utcTs`, `tsOffset` and `lastOvTs`, with the arithmetic of their C types. */
  datatype Clock = Clock(utc: U32, offset: U32, last: U64)
  {
    /** `packet->timestamp - last_ov_ts` in 64 bits. */
    function Diff(ts: U64): U64 {
      (ts - last) % 0x1_0000_0000_0000_0000
    }

    function Tick(ts: U64): Clock {
      var sum: U64 := (offset + Diff(ts)) % 0x1_0000_0000_0000_0000;
      Clock((utc + sum / 60_000_000) % 0x1_0000_0000, sum % 60_000_000, ts)
    }

    /** `ts_offset * 17 - ts_offset / 3` in 32 bits. */
    function Nanoseconds(): U32 {
      (offset * 17 - offset / 3) % 0x1_0000_0000
    }
  }

  /** The clock when a capture starts at `sec` seconds and `nsec` nanoseconds. */
  function StartClock(sec: U32, nsec: U32): Clock
    requires nsec < NANOS
  {
    Clock(sec, nsec / 17 + nsec / 850, 0)
  }

  /** The offset starts within two ticks below the wall clock, and below one second. */
  lemma StartOffset(sec: U32, nsec: U32)
    requires nsec < NANOS
    ensures
      var o := StartClock(sec, nsec).offset;
      o < FREQ && 50 * o <= 3 * nsec < 50 * (o + 2)
  {
  }

  // ---------------------------------------------------------------- without drift

  function TickAll(c: Clock, tss: seq<U64>): Clock
    decreases |tss|
  {
    if tss == [] then c else TickAll(c.Tick(tss[0]), tss[1..])
  }

  /** Device ticks that pass over the timestamps `tss`, counting each wrap of the device's 64 bits. */
  function Elapsed(c: Clock, tss: seq<U64>): nat
    decreases |tss|
  {
    if tss == [] then 0 else c.Diff(tss[0]) + Elapsed(c.Tick(tss[0]), tss[1..])
  }

  /** No step is so long that it overflows 64 bits together with the offset. */
  ghost predicate NoOverflow(c: Clock, tss: seq<U64>)
    decreases |tss|
  {
    tss == [] || (c.offset + c.Diff(tss[0]) < TWO_64 && NoOverflow(c.Tick(tss[0]), tss[1..]))
  }

  lemma DivModUnique(t: nat, q: nat, r: nat)
    requires t == q * 60_000_000 + r && r < 60_000_000
    ensures t / 60_000_000 == q && t % 60_000_000 == r
  {
  }

  /** 2^64 is not a multiple of the frequency: a number of ticks that overflows loses its place in the second. */
  lemma OverflowShows(u: nat)
    requires u < 60_000_000
    ensures (TWO_64 + u) % 60_000_000 != u
  {
    var q, r := 307_445_734_561, 49_551_616;
    assert TWO_64 == q * 60_000_000 + r;
    if r + u < 60_000_000 {
      DivModUnique(TWO_64 + u, q, r + u);
    } else {
      DivModUnique(TWO_64 + u, q + 1, r + u - 60_000_000);
    }
  }

  lemma OverflowTicks(c: Clock, ts: U64)
    requires c.offset < FREQ && c.offset + c.Diff(ts) >= TWO_64
    ensures c.Tick(ts).offset == c.offset + c.Diff(ts) - TWO_64 < FREQ
  {
    var u := c.offset + c.Diff(ts) - TWO_64;
    assert (c.offset + c.Diff(ts)) % 0x1_0000_0000_0000_0000 == u;
    DivModUnique(u, 0, u);
  }

  /** One step is exact iff it does not overflow. */
  lemma TickExactIff(c: Clock, ts: U64)
    requires c.offset < FREQ
    ensures
      var t := c.offset + c.Diff(ts);
      c.Tick(ts) == At(c.utc, t, ts) <==> t < TWO_64
  {
    var t := c.offset + c.Diff(ts);
    if t < TWO_64 {
      assert t % 0x1_0000_0000_0000_0000 == t;
    } else {
      OverflowTicks(c, ts);
      OverflowShows(t - TWO_64);
    }
  }

  lemma DiffForward(c: Clock, ts: U64)
    requires c.last <= ts
    ensures c.Diff(ts) == ts - c.last
  {
  }

  /** The timestamp goes back by no more ticks than the second has already, or forward to the end of the 64 bits. */
  predicate LosesTicks(c: Clock, ts: U64) {
    ts < c.last <= ts + c.offset || ts + c.offset >= c.last + TWO_64
  }

  lemma OverflowsIff(c: Clock, ts: U64)
    requires c.offset < FREQ
    ensures c.offset + c.Diff(ts) >= TWO_64 <==> LosesTicks(c, ts)
  {
    if c.last <= ts {
      DiffForward(c, ts);
    } else {
      assert c.Diff(ts) == TWO_64 + ts - c.last;
    }
  }

  /** In terms of the timestamps: which steps are exact. */
  lemma TickExactUnlessLost(c: Clock, ts: U64)
    requires c.offset < FREQ
    ensures c.Tick(ts) == At(c.utc, c.offset + c.Diff(ts), ts) <==> !LosesTicks(c, ts)
  {
    TickExactIff(c, ts);
    OverflowsIff(c, ts);
  }

  /** One tick after a second that begins with no tick seen. */
  lemma FirstTick(sec: U32)
    ensures Clock(sec, 0, 0).Tick(1) == Clock(sec, 1, 1)
  {
    TickExactIff(Clock(sec, 0, 0), 1);
    DivModUnique(1, 0, 1);
  }

  /** Such as when the timestamp goes back by a tick, one tick into a second: 2^64 ticks are lost. */
  lemma BackwardTickDrifts(sec: U32)
    ensures
      var c, ts := Clock(sec, 1, 1), 0;
      && c.offset + c.Diff(ts) == TWO_64
      && c.Tick(ts) == Clock(sec, 0, 0) != At(sec, TWO_64, ts)
  {
    OverflowTicks(Clock(sec, 1, 1), 0);
    DivModUnique(0, 0, 0);
    OverflowShows(0);
  }

  lemma WrapAdd(a: nat, b: nat)
    ensures (a % 0x1_0000_0000 + b) % 0x1_0000_0000 == (a + b) % 0x1_0000_0000
  {
  }

  /** Passing `more` ticks after `t` is passing `t + more`. */
  lemma TicksAdd(t: nat, more: nat)
    ensures (t + more) / 60_000_000 == t / 60_000_000 + (t % 60_000_000 + more) / 60_000_000
    ensures (t + more) % 60_000_000 == (t % 60_000_000 + more) % 60_000_000
  {
    var u := t % 60_000_000 + more;
    DivModUnique(t + more, t / 60_000_000 + u / 60_000_000, u % 60_000_000);
  }

  /** The clock that shows `t` ticks after `utc` seconds. */
  function At(utc: U32, t: nat, last: U64): Clock {
    Clock((utc + t / 60_000_000) % 0x1_0000_0000, t % 60_000_000, last)
  }

  lemma AtAdd(utc: U32, t: nat, more: nat, last: U64)
    ensures
      var c := At(utc, t, last);
      At(c.utc, c.offset + more, last) == At(utc, t + more, last)
  {
    TicksAdd(t, more);
    WrapAdd(utc + t / 60_000_000, (t % 60_000_000 + more) / 60_000_000);
  }

  /** A step that does not overflow, and `more` ticks after it. */
  lemma ExactTick(c: Clock, ts: U64, more: nat, last: U64)
    requires c.offset < FREQ && c.offset + c.Diff(ts) < TWO_64
    ensures
      var c' := c.Tick(ts);
      c'.offset < FREQ && At(c'.utc, c'.offset + more, last) == At(c.utc, c.offset + (c.Diff(ts) + more), last)
  {
    TickExactIff(c, ts);
    AtAdd(c.utc, c.offset + c.Diff(ts), more, last);
  }

  /** After any packets, seconds and offset are quotient and remainder of start plus device time: no drift. */
  lemma {:induction false} NoDrift(c: Clock, tss: seq<U64>)
    requires c.offset < FREQ && NoOverflow(c, tss)
    ensures TickAll(c, tss) == At(c.utc, c.offset + Elapsed(c, tss), if tss == [] then c.last else tss[|tss| - 1])
    decreases |tss|
  {
    if tss == [] {
      DivModUnique(c.offset, 0, c.offset);
    } else {
      var c' := c.Tick(tss[0]);
      var more, last := Elapsed(c', tss[1..]), tss[|tss| - 1];
      ExactTick(c, tss[0], more, last);
      NoDrift(c', tss[1..]);
      assert TickAll(c', tss[1..]) == At(c'.utc, c'.offset + more, last);
    }
  }

  /** Timestamps that do not decrease: the ticks that pass are the last timestamp less the first. */
  lemma {:induction false} ElapsedMonotone(c: Clock, tss: seq<U64>)
    requires forall i | 0 <= i < |tss| :: c.last <= tss[i]
    requires forall i, j | 0 <= i <= j < |tss| :: tss[i] <= tss[j]
    ensures Elapsed(c, tss) == (if tss == [] then 0 else tss[|tss| - 1] - c.last)
    decreases |tss|
  {
    if tss != [] {
      DiffForward(c, tss[0]);
      var c' := c.Tick(tss[0]);
      assert c'.last == tss[0];
      ElapsedMonotone(c', tss[1..]);
    }
  }

  // ---------------------------------------------------------------- pcap time

  /** The pcap time of a clock, in nanoseconds since the epoch. */
  function PcapTime(c: Clock): nat {
    c.utc * NANOS + c.Nanoseconds()
  }

  /** The nanoseconds are the offset in nanoseconds rounded up, and less than a second. */
  lemma NanosecondsRoundUp(c: Clock)
    requires c.offset < FREQ
    ensures c.Nanoseconds() < NANOS
    ensures 50 * c.offset <= 3 * c.Nanoseconds() < 50 * c.offset + 3
  {
  }

  /** A clock at `t` ticks of absolute time, before the 32-bit seconds wrap. */
  predicate ShowsTicks(c: Clock, t: nat) {
    c.utc == t / 60_000_000 && c.offset == t % 60_000_000
  }

  /**
   * The pcap time is the exact time of the tick, 50/3 ns each, rounded up to a nanosecond: rounding never
   * accumulates.
   */
  lemma PcapTimeExact(c: Clock, t: nat)
    requires ShowsTicks(c, t)
    ensures 50 * t <= 3 * PcapTime(c) < 50 * t + 3
  {
    NanosecondsRoundUp(c);
    assert t == c.utc * FREQ + c.offset;
  }

  /** Later ticks have later pcap times. */
  lemma PcapTimeMonotone(c: Clock, t: nat, c': Clock, t': nat)
    requires ShowsTicks(c, t) && ShowsTicks(c', t') && t < t'
    ensures PcapTime(c) < PcapTime(c')
  {
    PcapTimeExact(c, t);
    PcapTimeExact(c', t');
  }

  /** A whole capture from a clock that has not seen a packet: it shows its start plus device time. */
  lemma CaptureTime(c: Clock, tss: seq<U64>)
    requires c.offset < FREQ && c.last == 0 && tss != []
    requires forall i, j | 0 <= i <= j < |tss| :: tss[i] <= tss[j]
    requires tss[|tss| - 1] + FREQ <= TWO_64
    requires c.utc + tss[|tss| - 1] / FREQ + 1 < TWO_32
    ensures ShowsTicks(TickAll(c, tss), c.utc * FREQ + c.offset + tss[|tss| - 1])
  {
    MonotoneFits(c, tss);
    NoDrift(c, tss);
    ElapsedMonotone(c, tss);
    AtShows(c.utc, c.offset, tss[|tss| - 1]);
  }

  lemma AtShows(sec: U32, offset: nat, ts: U64)
    requires offset < FREQ && sec + ts / FREQ + 1 < TWO_32
    ensures ShowsTicks(At(sec, offset + ts, ts), sec * FREQ + offset + ts)
  {
    TicksAdd(ts, offset);
    var t := offset + ts;
    DivModUnique(sec * FREQ + t, sec + t / FREQ, t % FREQ);
  }

  lemma {:induction false} MonotoneFits(c: Clock, tss: seq<U64>)
    requires c.offset < FREQ
    requires forall i | 0 <= i < |tss| :: c.last <= tss[i] && tss[i] + FREQ <= TWO_64
    requires forall i, j | 0 <= i <= j < |tss| :: tss[i] <= tss[j]
    ensures NoOverflow(c, tss)
    decreases |tss|
  {
    if tss != [] {
      DiffForward(c, tss[0]);
      var c' := c.Tick(tss[0]);
      assert c'.last == tss[0];
      MonotoneFits(c', tss[1..]);
    }
  }
}
