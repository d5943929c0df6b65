/** Fixed-width unsigned integers of the C sources, and little-endian numbers. */
module Bytes {
  type Byte = x: int | 0 <= x < 0x100
  type U16 = x: int | 0 <= x < 0x1_0000
  type U32 = x: int | 0 <= x < 0x1_0000_0000
  type U64 = x: int | 0 <= x < 0x1_0000_0000_0000_0000

  const TWO_64: int := 0x1_0000_0000_0000_0000

  /** 256 to the power `k`: the weight of byte `k` of a little-endian number. */
  function Pow256(k: nat): (w: nat)
    ensures w > 0
  {
    if k == 0 then 1 else 0x100 * Pow256(k - 1)
  }

  function LittleEndian(bs: seq<Byte>): nat {
    if bs == [] then 0 else bs[0] + 0x100 * LittleEndian(bs[1..])
  }

  /** Reading one byte further adds that byte at the next weight. */
  lemma {:induction false} LittleEndianSnoc(bs: seq<Byte>, b: Byte)
    ensures LittleEndian(bs + [b]) == LittleEndian(bs) + b * Pow256(|bs|)
  {
    if bs == [] {
      assert bs + [b] == [b];
    } else {
      LittleEndianSnoc(bs[1..], b);
      assert (bs + [b])[1..] == bs[1..] + [b];
    }
  }

  lemma Scale(b: Byte, w: nat)
    ensures b * w <= 0xff * w
  {
    assert (0xff - b) * w >= 0;
  }

  /** One more byte keeps a partial number below the weight of the byte after it. */
  lemma PartialNumberBound(v: nat, b: Byte, k: nat)
    requires v < Pow256(k)
    ensures v + b * Pow256(k) < Pow256(k + 1)
  {
    Scale(b, Pow256(k));
  }

  /** Eight bytes fill a 64-bit number. */
  lemma Pow256AtMost8(k: nat)
    requires k <= 8
    ensures Pow256(k) <= TWO_64
  {
    assert Pow256(1) == 0x100 && Pow256(2) == 0x1_0000;
    assert Pow256(4) == 0x1_0000_0000 && Pow256(3) == 0x100_0000;
    assert Pow256(6) == 0x1_0000_0000_0000 && Pow256(5) == 0x100_0000_0000;
    assert Pow256(8) == TWO_64 && Pow256(7) == 0x100_0000_0000_0000;
  }
}
