/** The packet structure of include/openvizsla.h, shared by the decoder and by the packet callback. */
module OvPackets {
  import opened Bytes
  import opened DecoderSpec
  import opened Masks

  /** `data` is the caller's storage: the decoder overwrites it with every packet. */
  class OvPacket {
    var magic: Byte
    var flags: Byte
    var size: U16
    var timestamp: U64
    const data: array<Byte>

    constructor (data: array<Byte>)
      ensures this.data == data
    {
      magic, flags, size, timestamp := 0, 0, 0, 0;
      this.data := data;
    }

    function Header(): Header
      reads this
    {
      DecoderSpec.Header(magic, flags, size)
    }

    /** `ov_packet_captured_size` */
    method CapturedSize() returns (n: nat)
      ensures n == Header().CapturedSize() == if flags / 0x08 % 2 == 1 then 1027 else size
    {
      assert Pow2(3) == FLAG_TRUNC;
      var truncated := TestBit(flags, 3);
      n := if truncated then MAX_PACKET_SIZE else size;
    }
  }
}
