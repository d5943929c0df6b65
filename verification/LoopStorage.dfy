/**
 * What a run of the capture loop stores: if the stream it receives fits the packet's storage, so does all it decodes.
 */
module LoopStorage {
  import opened Bytes
  import opened Stream
  import opened DecoderSpec
  import opened Storage
  import opened LoopModel
  import opened LoopRuns

  /** Every block that is decoded of a received transfer fits. */
  ghost predicate BlocksFit(cfg: Config, l: Loop, bytes: seq<Byte>, capacity: nat)
    requires cfg.maxPacketSize > 0
    requires l.state == Running ==> l.decoder.Some?
    decreases |bytes|
  {
    l.state != Running || bytes == [] ||
    var n := BlockLength(cfg, bytes);
    if n > 2 then
      && StreamFits(l.decoder.value, bytes[2..n], capacity)
      && BlocksFit(cfg, OnBlock(cfg, l, bytes[2..n]), bytes[n..], capacity)
    else BlocksFit(cfg, l, bytes[n..], capacity)
  }

  ghost predicate HappeningFits(cfg: Config, l: Loop, h: Happening, capacity: nat)
    requires cfg.maxPacketSize > 0
    requires l.state == Running ==> l.decoder.Some?
  {
    h.Callback? && h.status.Completed? ==> BlocksFit(cfg, TakenBack(l, h.i), h.status.bytes, capacity)
  }

  /** All that a run decodes fits. */
  ghost predicate RunFits(cfg: Config, l: Loop, hs: seq<Happening>, capacity: nat)
    requires cfg.maxPacketSize > 0 && l.Waiting() && AllPossible(cfg, l, hs)
    decreases |hs|
  {
    hs == [] ||
    (&& HappeningFits(cfg, l, hs[0], capacity)
     && (ReactWaits(cfg, l, hs[0]); RunFits(cfg, React(cfg, l, hs[0]), hs[1..], capacity)))
  }

  /** What a running loop has still to decode fits. */
  ghost predicate RestFits(l: Loop, rest: seq<Byte>, capacity: nat) {
    l.state == Running ==> l.decoder.Some? && StreamFits(l.decoder.value, rest, capacity)
  }

  lemma BlockOfStream(cfg: Config, l: Loop, block: seq<Byte>, rest: seq<Byte>, capacity: nat)
    requires l.state == Running && RestFits(l, block + rest, capacity)
    ensures StreamFits(l.decoder.value, block, capacity)
    ensures RestFits(OnBlock(cfg, l, block), rest, capacity)
  {
    StreamFitsConcat(l.decoder.value, block, rest, capacity);
  }

  lemma {:induction false} BlocksOfStream(cfg: Config, l: Loop, bytes: seq<Byte>, rest: seq<Byte>, capacity: nat)
    requires cfg.maxPacketSize > 0
    requires RestFits(l, Strip(cfg, bytes) + rest, capacity)
    ensures BlocksFit(cfg, l, bytes, capacity)
    ensures RestFits(OnBlocks(cfg, l, bytes), rest, capacity)
    decreases |bytes|
  {
    if bytes == [] {
      assert Strip(cfg, bytes) + rest == rest;
    } else if l.state == Running {
      var n := BlockLength(cfg, bytes);
      var later := Strip(cfg, bytes[n..]);
      if n > 2 {
        var block := bytes[2..n];
        assert Payload(bytes[..n]) == block;
        Assoc(block, later, rest);
        BlockOfStream(cfg, l, block, later + rest, capacity);
        BlocksOfStream(cfg, OnBlock(cfg, l, block), bytes[n..], rest, capacity);
      } else {
        assert Strip(cfg, bytes) == later;
        BlocksOfStream(cfg, l, bytes[n..], rest, capacity);
      }
    }
  }

  lemma HappeningOfStream(cfg: Config, l: Loop, h: Happening, rest: seq<Byte>, capacity: nat)
    requires cfg.maxPacketSize > 0 && l.Waiting() && Possible(l, h)
    requires RestFits(l, Received(cfg, [h]) + rest, capacity)
    ensures HappeningFits(cfg, l, h, capacity)
    ensures RestFits(React(cfg, l, h), rest, capacity)
  {
    if h.Callback? && h.status.Completed? {
      assert Received(cfg, [h]) == Strip(cfg, h.status.bytes);
      BlocksOfStream(cfg, TakenBack(l, h.i), h.status.bytes, rest, capacity);
    } else {
      assert Received(cfg, [h]) + rest == rest;
    }
  }

  /** A received stream that fits is all that a run needs. */
  lemma {:induction false} RunOfStream(cfg: Config, l: Loop, hs: seq<Happening>, capacity: nat)
    requires cfg.maxPacketSize > 0 && l.Waiting() && AllPossible(cfg, l, hs)
    requires RestFits(l, Received(cfg, hs), capacity)
    ensures RunFits(cfg, l, hs, capacity)
    decreases |hs|
  {
    if hs != [] {
      ReactWaits(cfg, l, hs[0]);
      ReceivedHead(cfg, hs);
      HappeningOfStream(cfg, l, hs[0], Received(cfg, hs[1..]), capacity);
      RunOfStream(cfg, React(cfg, l, hs[0]), hs[1..], capacity);
    }
  }

  /** Storage of 8191 bytes is enough for every run. */
  lemma AmpleRun(cfg: Config, l: Loop, hs: seq<Happening>, capacity: nat)
    requires cfg.maxPacketSize > 0 && l.Waiting() && AllPossible(cfg, l, hs)
    requires l.decoder.Some? && l.decoder.value.Valid() && capacity >= MAX_CAPTURED_SIZE
    ensures RunFits(cfg, l, hs, capacity)
  {
    AmpleStreamFits(l.decoder.value, Received(cfg, hs), capacity);
    RunOfStream(cfg, l, hs, capacity);
  }
}
