/** Loading a bitstream through two buffers, of which one is sent while the other is filled (src/bit.c). */
module BitLoader {
  import opened Bytes
  import opened Stream

  // ---------------------------------------------------------------- bit reversal

  /** Each macro lists its four arguments in the order n, n + 2w, n + w, n + 3w: the weight at each index. */
  function Swap2(q: nat): nat
    requires q < 4
  {
    if q == 1 then 2 else if q == 2 then 1 else q
  }

  /**
   * The entry of the table at `x`: the outermost list chooses by the first two bits of the index, with weight 1, and
   * R6, R4 and R2 by the next ones, with weights 4, 16 and 64.
   */
  function BitReverse8(x: Byte): Byte {
    Swap2(x / 64) + 4 * Swap2(x / 16 % 4) + 16 * Swap2(x / 4 % 4) + 64 * Swap2(x % 4)
  }

  /** A byte with the base-4 digits a, b, c, d. */
  predicate Digits(x: Byte, a: nat, b: nat, c: nat, d: nat) {
    x == 64 * a + 16 * b + 4 * c + d && a < 4 && b < 4 && c < 4 && d < 4
  }

  lemma DigitsUnique(x: Byte, a: nat, b: nat, c: nat, d: nat)
    requires Digits(x, a, b, c, d)
    ensures x / 64 == a && x / 16 % 4 == b && x / 4 % 4 == c && x % 4 == d
  {
    assert x / 16 == 4 * a + b && x / 4 == 16 * a + 4 * b + c;
  }

  /** `x` in binary, most significant bit first. */
  datatype Bits = Bits(b7: nat, b6: nat, b5: nat, b4: nat, b3: nat, b2: nat, b1: nat, b0: nat)
  {
    predicate Valid() {
      b7 < 2 && b6 < 2 && b5 < 2 && b4 < 2 && b3 < 2 && b2 < 2 && b1 < 2 && b0 < 2
    }

    function Value(): Byte
      requires Valid()
    {
      128 * b7 + 64 * b6 + 32 * b5 + 16 * b4 + 8 * b3 + 4 * b2 + 2 * b1 + b0
    }

    function Reverse(): Bits { Bits(b0, b1, b2, b3, b4, b5, b6, b7) }
  }

  lemma SwapBits(u: nat, v: nat)
    requires u < 2 && v < 2
    ensures Swap2(2 * u + v) == 2 * v + u
  {
  }

  /** The pairs with their bits swapped, the last pair first. */
  lemma PairsReversed(b: Bits, p: nat, q: nat, r: nat, s: nat)
    requires b.Valid()
    requires p == 2 * b.b6 + b.b7 && q == 2 * b.b4 + b.b5 && r == 2 * b.b2 + b.b3 && s == 2 * b.b0 + b.b1
    ensures p + 4 * q + 16 * r + 64 * s == b.Reverse().Value()
  {
  }

  /** Every byte is mapped to the byte with its bits in reverse order. */
  lemma BitsReversed(b: Bits)
    requires b.Valid()
    ensures BitReverse8(b.Value()) == b.Reverse().Value()
  {
    var p, q, r, s := 2 * b.b7 + b.b6, 2 * b.b5 + b.b4, 2 * b.b3 + b.b2, 2 * b.b1 + b.b0;
    DigitsUnique(b.Value(), p, q, r, s);
    SwapBits(b.b7, b.b6);
    SwapBits(b.b5, b.b4);
    SwapBits(b.b3, b.b2);
    SwapBits(b.b1, b.b0);
    PairsReversed(b, Swap2(p), Swap2(q), Swap2(r), Swap2(s));
  }

  function MapBytes(f: Byte -> Byte, data: seq<Byte>): (r: seq<Byte>)
    ensures |r| == |data| && forall i | 0 <= i < |data| :: r[i] == f(data[i])
  {
    seq(|data|, i requires 0 <= i < |data| => f(data[i]))
  }

  lemma MapConcat(f: Byte -> Byte, a: seq<Byte>, b: seq<Byte>)
    ensures MapBytes(f, a + b) == MapBytes(f, a) + MapBytes(f, b)
  {
    var ab := a + b;
    assert forall i | 0 <= i < |a| :: ab[i] == a[i];
    assert forall i | 0 <= i < |b| :: ab[|a| + i] == b[i];
  }

  function Reversed(data: seq<Byte>): seq<Byte> { MapBytes(BitReverse8, data) }

  // ---------------------------------------------------------------- the device

  /**
   * libftdi's asynchronous writes: one may be outstanding, and the device may read its buffer up to the moment it
   * is done.  `refuses` and `breaks` say which submissions and which transfers fail.
   */
  class Ftdi {
    var sent: seq<Byte>
    var pending: array?<Byte>
    var pendingLength: nat
    var submissions: nat
    const refuses: nat -> bool
    const breaks: nat -> bool

    constructor (refuses: nat -> bool, breaks: nat -> bool)
      ensures pending == null && sent == []
    {
      this.refuses, this.breaks := refuses, breaks;
      sent, pending, pendingLength, submissions := [], null, 0, 0;
    }

    /** Some submission or transfer is one that fails. */
    ghost predicate Faulty() {
      (exists k: nat :: refuses(k)) || (exists k: nat :: breaks(k))
    }

    /** What the outstanding transfer will send if its buffer stays as it is. */
    ghost function Outstanding(): seq<Byte>
      requires pending != null ==> pendingLength <= pending.Length
      reads this, pending
    {
      if pending == null then [] else pending[..pendingLength]
    }

    method Submit(buf: array<Byte>, n: nat) returns (ok: bool)
      requires pending == null && n <= buf.Length
      modifies this`pending, this`pendingLength, this`submissions
      ensures if ok then pending == buf && pendingLength == n else pending == null && Faulty()
    {
      ok := !refuses(submissions);
      submissions := submissions + 1;
      if ok {
        pending, pendingLength := buf, n;
      }
    }

    method TransferDone() returns (ok: bool)
      requires pending != null && pendingLength <= pending.Length
      modifies this`pending, this`sent
      ensures pending == null
      ensures sent == if ok then old(sent + pending[..pendingLength]) else old(sent)
      ensures !ok ==> Faulty()
    {
      ok := !breaks(submissions);
      if ok {
        sent := sent + pending[..pendingLength];
      }
      pending := null;
    }
  }

  // ---------------------------------------------------------------- the loader

  const BUFFER_SIZE: nat := 4096

  /** Fills `buf` with as much of `data` as it holds. */
  method FillBuffer(buf: array<Byte>, data: seq<Byte>) returns (n: nat)
    requires buf.Length == BUFFER_SIZE
    modifies buf
    ensures n == if |data| < BUFFER_SIZE then |data| else BUFFER_SIZE
    ensures buf[..n] == Reversed(data[..n])
  {
    n := 0;
    while n < buf.Length && n < |data|
      invariant n <= buf.Length && n <= |data|
      invariant forall k | 0 <= k < n :: buf[k] == BitReverse8(data[k])
    {
      buf[n] := BitReverse8(data[n]);
      n := n + 1;
    }
  }

  /**
   * One turn of the loop: the buffer that is free is filled, then the other one is waited for, then this one
   * submitted.
   */
  method SendBlock(buf: array<Byte>, rest: seq<Byte>, ftdi: Ftdi) returns (ok: bool, n: nat)
    requires buf.Length == BUFFER_SIZE && ftdi.pending != buf
    requires ftdi.pending != null ==> ftdi.pendingLength <= ftdi.pending.Length
    modifies buf, ftdi
    ensures n == if |rest| < BUFFER_SIZE then |rest| else BUFFER_SIZE
    ensures ok ==>
              && ftdi.pending == buf && ftdi.pendingLength == n
              && ftdi.sent == old(ftdi.sent + ftdi.Outstanding()) && ftdi.Outstanding() == Reversed(rest[..n])
    ensures !ok ==> ftdi.sent == old(ftdi.sent) || ftdi.sent == old(ftdi.sent + ftdi.Outstanding())
    ensures !ok ==> ftdi.Faulty()
  {
    n := FillBuffer(buf, rest);
    ok := true;
    if ftdi.pending != null {
      ok := ftdi.TransferDone();
    }
    if ok {
      ok := ftdi.Submit(buf, n);
    }
  }

  /** `sent` has grown by an initial part of the reversed bitstream. */
  ghost predicate SentPart(before: seq<Byte>, sent: seq<Byte>, data: seq<Byte>) {
    exists n | 0 <= n <= |data| :: sent == before + Reversed(data[..n])
  }

  lemma PartSent(before: seq<Byte>, data: seq<Byte>, n: nat)
    requires n <= |data|
    ensures SentPart(before, before + Reversed(data[..n]), data)
  {
  }

  lemma SentSoFar(before: seq<Byte>, data: seq<Byte>, done: nat, pos: nat)
    requires done <= pos <= |data|
    ensures before + Reversed(data[..done]) + Reversed(data[done..pos]) == before + Reversed(data[..pos])
  {
    assert data[..done] + data[done..pos] == data[..pos];
    MapConcat(BitReverse8, data[..done], data[done..pos]);
    Assoc(before, Reversed(data[..done]), Reversed(data[done..pos]));
  }

  /** `NoTransfer`: the end of a transfer is waited for that was never submitted, which is a NULL pointer to libftdi. */
  datatype Loading = Loaded | Failed | NoTransfer

  /**
   * The device is sent every byte of the bitstream, bits reversed, in order, and nothing is outstanding when it is
   * done; on a failure it has been sent an initial part; and an empty bitstream comes to wait for no transfer.
   */
  method LoadFirmware(data: seq<Byte>, ftdi: Ftdi) returns (r: Loading)
    requires ftdi.pending == null
    modifies ftdi
    ensures r == NoTransfer <==> data == []
    ensures r == Loaded ==> ftdi.sent == old(ftdi.sent) + Reversed(data) && ftdi.pending == null
    ensures r == Failed ==> SentPart(old(ftdi.sent), ftdi.sent, data) && ftdi.Faulty()
    ensures r == NoTransfer ==> ftdi.sent == old(ftdi.sent)
  {
    var buf0, buf1 := new Byte[BUFFER_SIZE], new Byte[BUFFER_SIZE];
    var bidx := 0;
    var pos := 0;
    ghost var done := 0;
    ghost var before := ftdi.sent;
    assert before + Reversed(data[..0]) == before;
    while pos < |data|
      invariant 0 <= done <= pos <= |data| && 0 <= bidx <= 1
      invariant fresh(buf0) && fresh(buf1) && buf0 != buf1
      invariant ftdi.pending == null <==> pos == 0
      invariant ftdi.pending != null ==>
                  ftdi.pendingLength <= BUFFER_SIZE && ftdi.pending == (if bidx == 0 then buf1 else buf0)
      invariant ftdi.sent == before + Reversed(data[..done])
      invariant ftdi.Outstanding() == Reversed(data[done..pos])
    {
      SentSoFar(before, data, done, pos);
      PartSent(before, data, done);
      PartSent(before, data, pos);
      var ok, n := SendBlock(if bidx == 0 then buf0 else buf1, data[pos..], ftdi);
      if !ok {
        return Failed;
      }
      assert data[pos..][..n] == data[pos..pos + n];
      done, pos := pos, pos + n;
      bidx := (bidx + 1) % 2;
    }
    if ftdi.pending == null {
      return NoTransfer;
    }
    SentSoFar(before, data, done, pos);
    PartSent(before, data, done);
    assert data[..pos] == data;
    var ok := ftdi.TransferDone();
    r := if ok then Loaded else Failed;
  }
}
