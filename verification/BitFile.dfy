/** The header of a Xilinx bitstream file, as src/bit.c reads it. */
module BitFile {
  import opened Bytes

  const HEADER: seq<Byte> := [0x00, 0x09, 0x0f, 0xf0, 0x0f, 0xf0, 0x0f, 0xf0, 0x0f, 0xf0, 0x00, 0x00, 0x01]
  const KEY_A: Byte := 0x61
  const KEY_B: Byte := 0x62
  const KEY_C: Byte := 0x63
  const KEY_D: Byte := 0x64
  const KEY_E: Byte := 0x65

  datatype Error = WrongHeader | TooFewBytes | WrongKey
  datatype Result<T> = Ok(value: T) | Err(error: Error)

  // ---------------------------------------------------------------- numbers

  function Word(hi: Byte, lo: Byte): U16 { hi * 0x100 + lo }
  function DoubleWord(hi: U16, lo: U16): U32 { hi * 0x1_0000 + lo }

  function BigEndian16(b: seq<Byte>): U16
    requires |b| == 2
  {
    Word(b[0], b[1])
  }

  function BigEndian32(b: seq<Byte>): U32
    requires |b| == 4
  {
    DoubleWord(BigEndian16(b[..2]), BigEndian16(b[2..]))
  }

  function Print16(x: U16): seq<Byte> { [x / 0x100, x % 0x100] }
  function Print32(x: U32): seq<Byte> { Print16(x / 0x1_0000) + Print16(x % 0x1_0000) }

  lemma BigEndian16Inverse(x: U16, b: seq<Byte>)
    requires |b| == 2
    ensures BigEndian16(b) == x <==> b == Print16(x)
  {
    assert b == [b[0], b[1]];
  }

  lemma BigEndian32Inverse(x: U32, b: seq<Byte>)
    requires |b| == 4
    ensures BigEndian32(b) == x <==> b == Print32(x)
  {
    BigEndian16Inverse(x / 0x1_0000, b[..2]);
    BigEndian16Inverse(x % 0x1_0000, b[2..]);
    assert b == b[..2] + b[2..];
    assert Print32(x)[..2] == Print16(x / 0x1_0000) && Print32(x)[2..] == Print16(x % 0x1_0000);
  }

  // ---------------------------------------------------------------- fields

  function PrintField(key: Byte, str: seq<Byte>): seq<Byte>
    requires |str| < 0x1_0000
  {
    [key] + Print16(|str|) + str
  }

  /** A string field and what follows it. */
  function ParseField(key: Byte, data: seq<Byte>): (r: Result<(seq<Byte>, seq<Byte>)>)
    ensures r.Ok? ==> |r.value.0| < 0x1_0000
  {
    if |data| < 3 then Err(TooFewBytes)
    else if data[0] != key then Err(WrongKey)
    else
      var len := BigEndian16(data[1..3]);
      if |data| - 3 < len then Err(TooFewBytes) else Ok((data[3..3 + len], data[3 + len..]))
  }

  /** The length field and the bitstream, which must be at least that long. */
  function ParseLength(data: seq<Byte>): Result<(U32, seq<Byte>)> {
    if |data| < 5 then Err(TooFewBytes)
    else if data[0] != KEY_E then Err(WrongKey)
    else
      var len := BigEndian32(data[1..5]);
      if |data| - 5 < len then Err(TooFewBytes) else Ok((len, data[5..]))
  }

  /** A field is parsed exactly when it is printed at the front of the data. */
  lemma ParseFieldIff(key: Byte, data: seq<Byte>, str: seq<Byte>, rest: seq<Byte>)
    requires |str| < 0x1_0000
    ensures ParseField(key, data) == Ok((str, rest)) <==> data == PrintField(key, str) + rest
  {
    if |data| >= 3 {
      BigEndian16Inverse(|str|, data[1..3]);
      if ParseField(key, data) == Ok((str, rest)) {
        assert data == [data[0]] + data[1..3] + (str + rest);
      }
      if data == PrintField(key, str) + rest {
        assert data[1..3] == Print16(|str|);
      }
    }
  }

  lemma ParseLengthIff(data: seq<Byte>, n: U32, rest: seq<Byte>)
    ensures ParseLength(data) == Ok((n, rest)) <==> data == [KEY_E] + Print32(n) + rest && n <= |rest|
  {
    if |data| >= 5 {
      BigEndian32Inverse(n, data[1..5]);
      if ParseLength(data) == Ok((n, rest)) {
        assert data == [data[0]] + data[1..5] + rest;
      }
      if data == [KEY_E] + Print32(n) + rest {
        assert data[1..5] == Print32(n);
      }
    }
  }

  /** Why a string field is not parsed: too few bytes for key and length, another key, or too few for the string. */
  lemma FieldErrors(key: Byte, data: seq<Byte>)
    ensures ParseField(key, data) == Err(WrongKey) <==> |data| >= 3 && data[0] != key
    ensures ParseField(key, data) == Err(TooFewBytes) <==>
            |data| < 3 || (data[0] == key && |data| < 3 + 0x100 * (data[1] as int) + data[2])
  {
  }

  /** And why the length is not: 4 bytes, most significant first, and as many bytes after them. */
  lemma LengthErrors(data: seq<Byte>)
    ensures ParseLength(data) == Err(WrongKey) <==> |data| >= 5 && data[0] != 0x65
    ensures ParseLength(data) == Err(TooFewBytes) <==>
            || |data| < 5
            || (&& data[0] == 0x65
                && |data| < 5 + 0x100_0000 * (data[1] as int) + 0x1_0000 * (data[2] as int)
                            + 0x100 * (data[3] as int) + data[4])
  {
  }

  // ---------------------------------------------------------------- the whole header

  datatype Parsed = Parsed(
    ncdFilename: seq<Byte>, partName: seq<Byte>, date: seq<Byte>, time: seq<Byte>, bitLength: U32, rest: seq<Byte>)
  {
    predicate Valid() {
      && |ncdFilename| < 0x1_0000 && |partName| < 0x1_0000 && |date| < 0x1_0000 && |time| < 0x1_0000
      && bitLength <= |rest|
    }
  }

  function Print(f: Parsed): seq<Byte>
    requires f.Valid()
  {
    [0x00, 0x09, 0x0f, 0xf0, 0x0f, 0xf0, 0x0f, 0xf0, 0x0f, 0xf0, 0x00, 0x00, 0x01]
    + (PrintField(0x61, f.ncdFilename)
       + (PrintField(0x62, f.partName)
          + (PrintField(0x63, f.date)
             + (PrintField(0x64, f.time)
                + ([0x65] + Print32(f.bitLength) + f.rest)))))
  }

  /** Two string fields in a row, and what follows them. */
  function ParseTwo(k: Byte, l: Byte, data: seq<Byte>): (r: Result<(seq<Byte>, seq<Byte>, seq<Byte>)>)
    ensures r.Ok? ==> |r.value.0| < 0x1_0000 && |r.value.1| < 0x1_0000
  {
    match ParseField(k, data)
    case Err(e) => Err(e)
    case Ok((s, rest)) =>
      match ParseField(l, rest)
      case Err(e) => Err(e)
      case Ok((t, rest')) => Ok((s, t, rest'))
  }

  /** The fields after the part name: date, time, length, and the rest. */
  function ParseBuild(data: seq<Byte>): Result<Parsed> {
    match ParseTwo(KEY_C, KEY_D, data)
    case Err(e) => Err(e)
    case Ok((date, time, afterD)) =>
      match ParseLength(afterD)
      case Err(e) => Err(e)
      case Ok((n, rest)) => Ok(Parsed([], [], date, time, n, rest))
  }

  function ParseFields(data: seq<Byte>): Result<Parsed> {
    match ParseTwo(KEY_A, KEY_B, data)
    case Err(e) => Err(e)
    case Ok((ncd, part, afterB)) =>
      match ParseBuild(afterB)
      case Err(e) => Err(e)
      case Ok(f) => Ok(f.(ncdFilename := ncd, partName := part))
  }

  predicate HasHeader(data: seq<Byte>) {
    |data| >= |HEADER| && data[..|HEADER|] == HEADER
  }

  function Parse(data: seq<Byte>): Result<Parsed> {
    if HasHeader(data) then ParseFields(data[|HEADER|..]) else Err(WrongHeader)
  }

  /** A file is rejected for its first 13 bytes iff they are not the header. */
  lemma HeaderError(data: seq<Byte>)
    ensures Parse(data) == Err(WrongHeader) <==>
            || |data| < 13
            || data[..13] != [0x00, 0x09, 0x0f, 0xf0, 0x0f, 0xf0, 0x0f, 0xf0, 0x0f, 0xf0, 0x00, 0x00, 0x01]
  {
  }

  /** Parsing is exactly the inverse of printing. */
  lemma ParseIff(data: seq<Byte>, f: Parsed)
    ensures Parse(data) == Ok(f) <==> f.Valid() && data == Print(f)
  {
    if Parse(data) == Ok(f) {
      ParsedPrints(data, f);
    }
    if f.Valid() && data == Print(f) {
      PrintedParses(f);
    }
  }

  lemma ParsedPrints(data: seq<Byte>, f: Parsed)
    requires Parse(data) == Ok(f)
    ensures f.Valid() && data == Print(f)
  {
    var atA := data[|HEADER|..];
    assert data == data[..|HEADER|] + atA;
    var atC := ParseTwo(KEY_A, KEY_B, atA).value.2;
    ParseTwoPrints(KEY_A, KEY_B, atA);
    var atE := ParseTwo(KEY_C, KEY_D, atC).value.2;
    ParseTwoPrints(KEY_C, KEY_D, atC);
    ParseLengthIff(atE, f.bitLength, f.rest);
  }

  lemma ParseTwoPrints(k: Byte, l: Byte, data: seq<Byte>)
    requires ParseTwo(k, l, data).Ok?
    ensures
      var (s, t, rest) := ParseTwo(k, l, data).value;
      data == PrintField(k, s) + (PrintField(l, t) + rest)
  {
    var (s, t, rest) := ParseTwo(k, l, data).value;
    var after := ParseField(k, data).value.1;
    ParseFieldIff(k, data, s, after);
    ParseFieldIff(l, after, t, rest);
  }

  lemma PrintedParses(f: Parsed)
    requires f.Valid()
    ensures Parse(Print(f)) == Ok(f)
  {
    var afterD := [KEY_E] + Print32(f.bitLength) + f.rest;
    var afterC := PrintField(KEY_D, f.time) + afterD;
    var afterB := PrintField(KEY_C, f.date) + afterC;
    var afterA := PrintField(KEY_B, f.partName) + afterB;
    var atA := PrintField(KEY_A, f.ncdFilename) + afterA;
    ParseFieldIff(KEY_A, atA, f.ncdFilename, afterA);
    ParseFieldIff(KEY_B, afterA, f.partName, afterB);
    ParseFieldIff(KEY_C, afterB, f.date, afterC);
    ParseFieldIff(KEY_D, afterC, f.time, afterD);
    ParseLengthIff(afterD, f.bitLength, f.rest);
    assert Print(f)[..|HEADER|] == HEADER && Print(f)[|HEADER|..] == atA;
  }

  // ---------------------------------------------------------------- the parser

  /**
   * The file is constant; `bit->data` points `pos` bytes into it, and `size` bytes are left from there.
   * A string of the header, in C a pointer into the file, is the bytes of its field.
   */
  class Bit {
    const file: seq<Byte>
    var pos: nat
    var size: nat
    var ncdFilename: seq<Byte>
    var partName: seq<Byte>
    var date: seq<Byte>
    var time: seq<Byte>
    var bitLength: U32
    var error: Error

    ghost predicate Valid()
      reads this`pos, this`size
    {
      pos + size == |file|
    }

    /** What is left to read. */
    ghost function Left(): seq<Byte>
      requires Valid()
      reads this`pos, this`size
    {
      file[pos..]
    }

    constructor (file: seq<Byte>)
      ensures Valid() && this.file == file && Left() == file
    {
      this.file := file;
      pos, size := 0, |file|;
      ncdFilename, partName, date, time := [], [], [], [];
      bitLength := 0;
      error := WrongHeader;
    }

    method Skip(n: nat)
      requires Valid() && n <= size
      modifies this`pos, this`size
      ensures Valid() && Left() == old(Left()[n..])
    {
      pos, size := pos + n, size - n;
    }

    method DoParseHeader() returns (ok: bool)
      requires Valid()
      modifies this`pos, this`size, this`error
      ensures Valid()
      ensures
        var left := old(Left());
        ok == HasHeader(left) && (if ok then Left() == left[|HEADER|..] else error == WrongHeader)
    {
      if size < |HEADER| || file[pos..pos + |HEADER|] != HEADER {
        error := WrongHeader;
        return false;
      }
      Skip(|HEADER|);
      return true;
    }

    method DoParseFieldStr(key: Byte) returns (ok: bool, str: seq<Byte>)
      requires Valid()
      modifies this`pos, this`size, this`error
      ensures Valid()
      ensures
        match ParseField(key, old(Left()))
        case Err(e) => !ok && error == e
        case Ok((s, rest)) => ok && str == s && Left() == rest
    {
      ok, str := false, [];
      if size < 3 {
        error := TooFewBytes;
      } else if file[pos] != key {
        error := WrongKey;
      } else {
        Skip(1);
        var len := BigEndian16(file[pos..pos + 2]);
        assert file[pos..pos + 2] == old(Left())[1..3];
        Skip(2);
        if size < len {
          error := TooFewBytes;
        } else {
          ok, str := true, file[pos..pos + len];
          assert str == Left()[..len];
          Skip(len);
        }
      }
    }

    method DoParseLength() returns (ok: bool)
      requires Valid()
      modifies this`pos, this`size, this`error, this`bitLength
      ensures Valid()
      ensures
        match ParseLength(old(Left()))
        case Err(e) => !ok && error == e
        case Ok((n, rest)) => ok && bitLength == n && Left() == rest
    {
      ok := false;
      if size < 5 {
        error := TooFewBytes;
      } else if file[pos] != KEY_E {
        error := WrongKey;
      } else {
        Skip(1);
        bitLength := BigEndian32(file[pos..pos + 4]);
        assert file[pos..pos + 4] == old(Left())[1..5];
        Skip(4);
        if size < bitLength {
          error := TooFewBytes;
        } else {
          ok := true;
        }
      }
    }

    method DoParseTwo(k: Byte, l: Byte) returns (ok: bool, first: seq<Byte>, second: seq<Byte>)
      requires Valid()
      modifies this`pos, this`size, this`error
      ensures Valid()
      ensures
        match ParseTwo(k, l, old(Left()))
        case Err(e) => !ok && error == e
        case Ok((s, t, rest)) => ok && first == s && second == t && Left() == rest
    {
      second := [];
      ok, first := DoParseFieldStr(k);
      if ok {
        ok, second := DoParseFieldStr(l);
      }
    }

    method DoParseBuild() returns (ok: bool)
      requires Valid()
      modifies this`pos, this`size, this`error, this`date, this`time, this`bitLength
      ensures Valid()
      ensures
        match ParseBuild(old(Left()))
        case Err(e) => !ok && error == e
        case Ok(f) => ok && date == f.date && time == f.time && bitLength == f.bitLength && Left() == f.rest
    {
      ok, date, time := DoParseTwo(KEY_C, KEY_D);
      if ok {
        ok := DoParseLength();
      }
    }

    method DoParseFields() returns (ok: bool)
      requires Valid()
      modifies this
      ensures Valid() && ok == ParseFields(old(Left())).Ok?
      ensures !ok ==> error == ParseFields(old(Left())).error
      ensures ok ==> Left() == ParseFields(old(Left())).value.rest
      ensures ok ==> bitLength == ParseFields(old(Left())).value.bitLength
      ensures ok ==> ncdFilename == ParseFields(old(Left())).value.ncdFilename
      ensures ok ==> partName == ParseFields(old(Left())).value.partName
      ensures ok ==> date == ParseFields(old(Left())).value.date && time == ParseFields(old(Left())).value.time
    {
      ok, ncdFilename, partName := DoParseTwo(KEY_A, KEY_B);
      if ok {
        ok := DoParseBuild();
      }
    }

    /** From the start of the file: the fields, or the error of the first step that fails. */
    method DoParse() returns (ok: bool)
      requires Valid() && pos == 0
      modifies this
      ensures Valid() && ok == Parse(file).Ok?
      ensures !ok ==> error == Parse(file).error
      ensures ok ==> Left() == Parse(file).value.rest && bitLength == Parse(file).value.bitLength
      ensures ok ==> ncdFilename == Parse(file).value.ncdFilename && partName == Parse(file).value.partName
      ensures ok ==> date == Parse(file).value.date && time == Parse(file).value.time
    {
      assert Left() == file;
      ok := DoParseHeader();
      if !ok { return; }
      ok := DoParseFields();
    }
  }
}
