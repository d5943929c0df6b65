/** How cha_sync_stream of src/cha.c finds the echo of its message in what the device still had to send. */
module SyncStream {
  import opened Bytes
  import opened Handshake

  const MESSAGE_LENGTH: nat := 5

  /**
   * The matcher has the first `k` bytes of the message; a byte that does not go on with it sends it back to the
   * start.
   */
  function Advance(msg: seq<Byte>, k: nat, b: Byte): (k': nat)
    requires |msg| == MESSAGE_LENGTH && k < MESSAGE_LENGTH
    ensures k' <= MESSAGE_LENGTH
  {
    if b == msg[k] then k + 1 else 0
  }

  /** The state after the bytes `bs`; the whole message ends the search. */
  function Scan(msg: seq<Byte>, k: nat, bs: seq<Byte>): (k': nat)
    requires |msg| == MESSAGE_LENGTH && k <= MESSAGE_LENGTH
    ensures k' <= MESSAGE_LENGTH
    decreases |bs|
  {
    if k == MESSAGE_LENGTH || bs == [] then k else Scan(msg, Advance(msg, k, bs[0]), bs[1..])
  }

  lemma {:induction false} ScanConcat(msg: seq<Byte>, k: nat, a: seq<Byte>, b: seq<Byte>)
    requires |msg| == MESSAGE_LENGTH && k <= MESSAGE_LENGTH
    ensures Scan(msg, k, a + b) == Scan(msg, Scan(msg, k, a), b)
    decreases |a|
  {
    if a == [] {
      assert a + b == b;
    } else if k < MESSAGE_LENGTH {
      assert (a + b)[0] == a[0] && (a + b)[1..] == a[1..] + b;
      ScanConcat(msg, Advance(msg, k, a[0]), a[1..], b);
    }
  }

  /** The last `k` bytes are the `k` - 1 before the last byte, and that byte. */
  lemma SuffixSnoc(bs: seq<Byte>, k: nat)
    requires 0 < k <= |bs|
    ensures
      var m := |bs| - 1;
      bs[..m][..m - (k - 1)] == bs[..|bs| - k] && bs[..m][m - (k - 1)..] + [bs[m]] == bs[|bs| - k..]
  {
  }

  /** In state `k` the last `k` bytes begin the message, from a point where the matcher was at the start. */
  lemma {:induction false} PartialMatch(msg: seq<Byte>, bs: seq<Byte>)
    requires |msg| == MESSAGE_LENGTH && Scan(msg, 0, bs) < MESSAGE_LENGTH
    ensures
      var k := Scan(msg, 0, bs);
      k <= |bs| && bs[|bs| - k..] == msg[..k] && Scan(msg, 0, bs[..|bs| - k]) == 0
    decreases |bs|
  {
    var k := Scan(msg, 0, bs);
    if k == 0 {
      assert bs[..|bs| - 0] == bs;
    } else {
      var m := |bs| - 1;
      LastByte(msg, bs);
      assert Scan(msg, 0, bs[..m]) == k - 1 && bs[m] == msg[k - 1];
      PartialMatch(msg, bs[..m]);
      SuffixSnoc(bs, k);
      assert msg[..k - 1] + [msg[k - 1]] == msg[..k];
    }
  }

  lemma LastByte(msg: seq<Byte>, bs: seq<Byte>)
    requires |msg| == MESSAGE_LENGTH && bs != []
    ensures
      var before := Scan(msg, 0, bs[..|bs| - 1]);
      Scan(msg, 0, bs) == if before == MESSAGE_LENGTH then before else Advance(msg, before, bs[|bs| - 1])
  {
    var m := |bs| - 1;
    assert bs == bs[..m] + [bs[m]] && [bs[m]][1..] == [];
    ScanConcat(msg, 0, bs[..m], [bs[m]]);
  }

  /** An attempt of the matcher that fails: it matched the first `matched` bytes of the message, but not `wrong`. */
  datatype Attempt = Attempt(matched: nat, wrong: Byte)
  {
    predicate Fails(msg: seq<Byte>)
      requires |msg| == MESSAGE_LENGTH
    {
      matched < MESSAGE_LENGTH && wrong != msg[matched]
    }

    function Bytes(msg: seq<Byte>): seq<Byte>
      requires |msg| == MESSAGE_LENGTH && Fails(msg)
    {
      msg[..matched] + [wrong]
    }
  }

  ghost predicate AllFail(msg: seq<Byte>, tries: seq<Attempt>)
    requires |msg| == MESSAGE_LENGTH
  {
    forall i | 0 <= i < |tries| :: tries[i].Fails(msg)
  }

  function Tried(msg: seq<Byte>, tries: seq<Attempt>): seq<Byte>
    requires |msg| == MESSAGE_LENGTH && AllFail(msg, tries)
  {
    if tries == [] then [] else Tried(msg, tries[..|tries| - 1]) + tries[|tries| - 1].Bytes(msg)
  }

  /** The bytes are failed attempts, the message, and anything. */
  ghost predicate Found(msg: seq<Byte>, bs: seq<Byte>, tries: seq<Attempt>, rest: seq<Byte>)
    requires |msg| == MESSAGE_LENGTH
  {
    AllFail(msg, tries) && bs == Tried(msg, tries) + (msg + rest)
  }

  lemma {:induction false} ScanPartly(msg: seq<Byte>, k: nat, n: nat)
    requires |msg| == MESSAGE_LENGTH && k <= n <= MESSAGE_LENGTH
    ensures Scan(msg, k, msg[k..n]) == n
    decreases n - k
  {
    if k < n {
      assert msg[k..n][1..] == msg[k + 1..n];
      ScanPartly(msg, k + 1, n);
    }
  }

  /** A failed attempt leaves the matcher at the start. */
  lemma ScanAttempt(msg: seq<Byte>, a: Attempt)
    requires |msg| == MESSAGE_LENGTH && a.Fails(msg)
    ensures Scan(msg, 0, a.Bytes(msg)) == 0
  {
    ScanPartly(msg, 0, a.matched);
    assert msg[0..a.matched] == msg[..a.matched];
    ScanConcat(msg, 0, msg[..a.matched], [a.wrong]);
    assert [a.wrong][1..] == [];
  }

  lemma {:induction false} ScanTried(msg: seq<Byte>, tries: seq<Attempt>)
    requires |msg| == MESSAGE_LENGTH && AllFail(msg, tries)
    ensures Scan(msg, 0, Tried(msg, tries)) == 0
  {
    if tries != [] {
      var n := |tries| - 1;
      ScanTried(msg, tries[..n]);
      ScanAttempt(msg, tries[n]);
      ScanConcat(msg, 0, Tried(msg, tries[..n]), tries[n].Bytes(msg));
    }
  }

  /** Bytes that leave the matcher at the start are failed attempts. */
  lemma {:induction false} AsAttempts(msg: seq<Byte>, bs: seq<Byte>) returns (tries: seq<Attempt>)
    requires |msg| == MESSAGE_LENGTH && Scan(msg, 0, bs) == 0
    ensures AllFail(msg, tries) && bs == Tried(msg, tries)
    decreases |bs|
  {
    if bs == [] {
      tries := [];
    } else {
      var m := |bs| - 1;
      LastByte(msg, bs);
      var k := Scan(msg, 0, bs[..m]);
      PartialMatch(msg, bs[..m]);
      var earlier := AsAttempts(msg, bs[..m][..m - k]);
      var last := Attempt(k, bs[m]);
      tries := earlier + [last];
      assert tries[..|earlier|] == earlier;
      assert bs == bs[..m][..m - k] + (bs[..m][m - k..] + [bs[m]]);
    }
  }

  lemma {:induction false} FullMatch(msg: seq<Byte>, bs: seq<Byte>) returns (tries: seq<Attempt>, rest: seq<Byte>)
    requires |msg| == MESSAGE_LENGTH && Scan(msg, 0, bs) == MESSAGE_LENGTH
    ensures Found(msg, bs, tries, rest)
    decreases |bs|
  {
    var m := |bs| - 1;
    LastByte(msg, bs);
    assert bs == bs[..m] + [bs[m]];
    if Scan(msg, 0, bs[..m]) == MESSAGE_LENGTH {
      tries, rest := FullMatch(msg, bs[..m]);
      rest := rest + [bs[m]];
    } else {
      var n := m - (MESSAGE_LENGTH - 1);
      PartialMatch(msg, bs[..m]);
      tries := AsAttempts(msg, bs[..m][..n]);
      rest := [];
      assert bs[..m][n..] + [bs[m]] == msg;
      assert bs == bs[..m][..n] + (bs[..m][n..] + [bs[m]]);
    }
  }

  /**
   * The search succeeds iff the bytes are failed attempts and then the message: each attempt an initial part of the
   * message and one wrong byte, which is lost even where the message begins with it.
   */
  lemma SyncFindsIff(msg: seq<Byte>, bs: seq<Byte>)
    requires |msg| == MESSAGE_LENGTH
    ensures Scan(msg, 0, bs) == MESSAGE_LENGTH <==> exists tries, rest :: Found(msg, bs, tries, rest)
  {
    if Scan(msg, 0, bs) == MESSAGE_LENGTH {
      var tries, rest := FullMatch(msg, bs);
    }
    if tries, rest :| Found(msg, bs, tries, rest) {
      ScanTried(msg, tries);
      ScanConcat(msg, 0, Tried(msg, tries), msg + rest);
      ScanConcat(msg, 0, msg, rest);
      ScanMessage(msg);
    }
  }

  lemma ScanMessage(msg: seq<Byte>)
    requires |msg| == MESSAGE_LENGTH
    ensures Scan(msg, 0, msg) == MESSAGE_LENGTH
  {
    ScanPartly(msg, 0, MESSAGE_LENGTH);
    assert msg[0..MESSAGE_LENGTH] == msg;
  }

  /** Bytes other than the first of the message are no start of it. */
  lemma {:induction false} ScanForeign(msg: seq<Byte>, bs: seq<Byte>)
    requires |msg| == MESSAGE_LENGTH && msg[0] !in bs
    ensures Scan(msg, 0, bs) == 0
    decreases |bs|
  {
    if bs != [] {
      assert bs[0] in bs && forall b | b in bs[1..] :: b in bs;
      ScanForeign(msg, bs[1..]);
    }
  }

  /** A message is found if its first byte is nowhere before it. */
  lemma CleanMessageFound(msg: seq<Byte>, before: seq<Byte>, after: seq<Byte>)
    requires |msg| == MESSAGE_LENGTH && msg[0] !in before
    ensures Scan(msg, 0, before + (msg + after)) == MESSAGE_LENGTH
  {
    ScanForeign(msg, before);
    ScanConcat(msg, 0, before, msg + after);
    ScanConcat(msg, 0, msg, after);
    ScanMessage(msg);
  }

  /** The message cha_sync_stream sends for the register at `addr`: a write of 0, with its checksum. */
  function SyncMessage(addr: U16): (msg: seq<Byte>)
    ensures |msg| == MESSAGE_LENGTH && IsMessage(msg, addr / 0x100, addr % 0x100, 0)
  {
    RegisterFrameBytes(addr, 0);
    RegisterFrame(addr, 0).Serialise()
  }

  /** A stray first byte before it hides the message, whatever the register. */
  lemma StrayByteHides(addr: U16)
    ensures Scan(SyncMessage(addr), 0, [SyncMessage(addr)[0]] + SyncMessage(addr)) < MESSAGE_LENGTH
  {
    var msg := SyncMessage(addr);
    var bs := [msg[0]] + msg;
    assert bs[1..] == msg && bs[1..][1..] == msg[1..];
    assert msg[1..][1..] == msg[2..] && msg[2..][1..] == msg[3..] && msg[3..][1..] == msg[4..] && msg[4..][1..] == [];
    assert msg[0] == 0x55 && msg[3] == 0;
    ScanAtMost(msg, 0, msg[2..]);
    assert Scan(msg, 0, bs) == Scan(msg, 1, msg);
    if msg[1] == 0x55 {
      assert Scan(msg, 1, msg) == Scan(msg, 2, msg[1..]);
      if msg[2] == 0x55 {
        assert Scan(msg, 2, msg[1..]) == Scan(msg, 3, msg[2..]) == Scan(msg, 0, msg[3..]);
        ScanAtMost(msg, 0, msg[3..]);
      }
    } else {
      assert Scan(msg, 1, msg) == Scan(msg, 0, msg[1..]);
      ScanAtMost(msg, 0, msg[1..]);
    }
  }

  /** Few bytes take the matcher few steps. */
  lemma {:induction false} ScanAtMost(msg: seq<Byte>, k: nat, bs: seq<Byte>)
    requires |msg| == MESSAGE_LENGTH && k <= MESSAGE_LENGTH
    ensures Scan(msg, k, bs) <= k + |bs|
    decreases |bs|
  {
    if k < MESSAGE_LENGTH && bs != [] {
      ScanAtMost(msg, Advance(msg, k, bs[0]), bs[1..]);
    }
  }

  // ---------------------------------------------------------------- with libftdi's answers

  /** What a call of libftdi answers: the bytes read, or a failure. */
  datatype Read = Bytes(buf: seq<Byte>) | ReadFails

  /** The bytes of the answers before the first failure. */
  function BytesBeforeFailure(answers: seq<Read>): seq<Byte> {
    if answers == [] || answers[0].ReadFails? then [] else answers[0].buf + BytesBeforeFailure(answers[1..])
  }

  function BytesRead(bufs: seq<seq<Byte>>): seq<Byte> {
    if bufs == [] then [] else BytesRead(bufs[..|bufs| - 1]) + bufs[|bufs| - 1]
  }

  function Answers(bufs: seq<seq<Byte>>): seq<Read> {
    seq(|bufs|, i requires 0 <= i < |bufs| => Bytes(bufs[i]))
  }

  /** What the reads before a failure have returned is searched, and nothing after it. */
  lemma NothingAfterFailure(bufs: seq<seq<Byte>>, after: seq<Read>)
    ensures BytesBeforeFailure(Answers(bufs)) == BytesRead(bufs)
    ensures BytesBeforeFailure(Answers(bufs) + [ReadFails] + after) == BytesRead(bufs)
  {
    JoinedBefore(bufs, []);
    JoinedBefore(bufs, [ReadFails] + after);
    assert Answers(bufs) + [] == Answers(bufs);
    assert Answers(bufs) + [ReadFails] + after == Answers(bufs) + ([ReadFails] + after);
  }

  lemma {:induction false} JoinedBefore(bufs: seq<seq<Byte>>, more: seq<Read>)
    ensures BytesBeforeFailure(Answers(bufs) + more) == BytesRead(bufs) + BytesBeforeFailure(more)
    decreases |bufs|
  {
    if bufs == [] {
      assert Answers(bufs) + more == more;
    } else {
      var n := |bufs| - 1;
      assert Answers(bufs) + more == Answers(bufs[..n]) + ([Bytes(bufs[n])] + more);
      JoinedBefore(bufs[..n], [Bytes(bufs[n])] + more);
      assert ([Bytes(bufs[n])] + more)[1..] == more;
    }
  }

  /** `Searching`: the message has not been found in what has been read so far, and nothing has failed. */
  datatype SyncResult = Synced | SyncFailed | Searching

  /** The message is found before a read fails, or a read fails before that, or neither has happened yet. */
  function SyncOutcome(msg: seq<Byte>, answers: seq<Read>): SyncResult
    requires |msg| == MESSAGE_LENGTH
  {
    if Scan(msg, 0, BytesBeforeFailure(answers)) == MESSAGE_LENGTH then Synced
    else if ReadFails in answers then SyncFailed
    else Searching
  }

  /**
   * Reads that return `bufs`, and then perhaps a failure: the search succeeds iff those bytes hold failed attempts and
   * the message; otherwise the failure decides, or it still goes on.
   */
  lemma OutcomeOfReads(msg: seq<Byte>, bufs: seq<seq<Byte>>, after: seq<Read>)
    requires |msg| == MESSAGE_LENGTH
    ensures
      var found := exists tries, rest :: Found(msg, BytesRead(bufs), tries, rest);
      && SyncOutcome(msg, Answers(bufs)) == (if found then Synced else Searching)
      && SyncOutcome(msg, Answers(bufs) + [ReadFails] + after) == (if found then Synced else SyncFailed)
  {
    NothingAfterFailure(bufs, after);
    SyncFindsIff(msg, BytesRead(bufs));
    assert (Answers(bufs) + [ReadFails] + after)[|bufs|] == ReadFails;
  }

  /** The inner loop: the bytes of one read, up to the end of the message. */
  method SearchBuffer(msg: array<Byte>, buf: seq<Byte>, start: nat) returns (syncState: nat)
    requires msg.Length == MESSAGE_LENGTH && start < MESSAGE_LENGTH
    ensures syncState == Scan(msg[..], start, buf)
  {
    syncState := start;
    var i := 0;
    assert buf[0..] == buf;
    while i < |buf| && syncState != MESSAGE_LENGTH
      invariant 0 <= i <= |buf| && syncState <= MESSAGE_LENGTH
      invariant Scan(msg[..], start, buf) == Scan(msg[..], syncState, buf[i..])
    {
      assert buf[i..][1..] == buf[i + 1..];
      if buf[i] == msg[syncState] {
        syncState := syncState + 1;
      } else {
        syncState := 0;
      }
      i := i + 1;
    }
  }

  /** The loop over the answers. */
  method SearchReads(msg: array<Byte>, answers: seq<Read>) returns (r: SyncResult)
    requires msg.Length == MESSAGE_LENGTH
    ensures r == SyncOutcome(msg[..], answers)
  {
    var syncState: nat := 0;
    ghost var m := msg[..];
    var k := 0;
    assert answers[0..] == answers;
    while k < |answers|
      invariant 0 <= k <= |answers| && syncState < MESSAGE_LENGTH && m == msg[..]
      invariant ReadFails !in answers[..k]
      invariant Scan(m, 0, BytesBeforeFailure(answers)) == Scan(m, syncState, BytesBeforeFailure(answers[k..]))
    {
      if answers[k].ReadFails? {
        return SyncFailed;
      }
      assert answers[k..][1..] == answers[k + 1..] && answers[..k + 1] == answers[..k] + [answers[k]];
      ScanConcat(m, syncState, answers[k].buf, BytesBeforeFailure(answers[k + 1..]));
      syncState := SearchBuffer(msg, answers[k].buf, syncState);
      if syncState == MESSAGE_LENGTH {
        return Synced;
      }
      k := k + 1;
    }
    assert answers[..k] == answers;
    r := Searching;
  }

  /**
   * The message is built, with its address as the caller gives it, sent, and searched for; the buffers of libftdi are
   * flushed before and after.  `flushes`, `sends` and `flushesAgain` are libftdi's answers.
   */
  method Sync(addr: U16, flushes: bool, sends: bool, answers: seq<Read>, flushesAgain: bool) returns (r: SyncResult)
    ensures r == Synced <==> flushes && sends && flushesAgain && SyncOutcome(SyncMessage(addr), answers) == Synced
    ensures r == Searching <==> flushes && sends && SyncOutcome(SyncMessage(addr), answers) == Searching
  {
    var msg := RegisterMessage(addr / 0x100, addr % 0x100, 0);
    if !flushes || !sends {
      return SyncFailed;
    }
    r := SearchReads(msg, answers);
    if r == Synced && !flushesAgain {
      r := SyncFailed;
    }
  }
}
