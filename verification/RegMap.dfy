/** The register map of src/reg.c: lines of the form `NAME = address`, as text. */
module RegMap {
  import opened Bytes

  const REG_MAX: nat := 15
  const UNSET: U16 := 0xffff

  /** In the order of enum reg_name. */
  const NAMES: seq<string> := [
    "CSTREAM_CFG", "CSTREAM_CONS_LO", "CSTREAM_CONS_HI", "LEDS_OUT",
    "SDRAM_HOST_READ_RING_BASE", "SDRAM_HOST_READ_RING_END", "SDRAM_HOST_READ_GO",
    "SDRAM_SINK_PTR_READ", "SDRAM_SINK_RING_BASE", "SDRAM_SINK_RING_END", "SDRAM_SINK_GO",
    "UCFG_WDATA", "UCFG_WCMD", "UCFG_RDATA", "UCFG_RCMD"]

  // ---------------------------------------------------------------- strings

  /** The index of the first `c` in `s`, or the length of `s`. */
  function FirstIndex(s: string, c: char): (i: nat)
    ensures i <= |s| && c !in s[..i]
    ensures i < |s| ==> s[i] == c
  {
    if s == [] || s[0] == c then 0
    else
      var i := FirstIndex(s[1..], c);
      assert s[..i + 1] == [s[0]] + s[1..][..i];
      i + 1
  }

  function SplitLines(t: string): seq<string>
    decreases |t|
  {
    var i := FirstIndex(t, '\n');
    if i == |t| then [t] else [t[..i]] + SplitLines(t[i + 1..])
  }

  function JoinLines(lines: seq<string>): string {
    if lines == [] then "" else if |lines| == 1 then lines[0] else lines[0] + "\n" + JoinLines(lines[1..])
  }

  /** The lines are those between newlines: they have none, and joined with newlines they are the text. */
  lemma {:induction false} SplitIsInverse(t: string)
    ensures SplitLines(t) != [] && JoinLines(SplitLines(t)) == t
    ensures forall i | 0 <= i < |SplitLines(t)| :: '\n' !in SplitLines(t)[i]
    decreases |t|
  {
    var i := FirstIndex(t, '\n');
    if i < |t| {
      SplitIsInverse(t[i + 1..]);
      assert t == t[..i] + "\n" + t[i + 1..];
    } else {
      assert t[..i] == t;
    }
  }

  function SkipSpaces(s: string): string {
    if s != [] && s[0] == ' ' then SkipSpaces(s[1..]) else s
  }

  /** The first word of `s`: `strtok(s, " ")`. */
  function Token(s: string): string {
    var w := SkipSpaces(s);
    w[..FirstIndex(w, ' ')]
  }

  // ---------------------------------------------------------------- strtoul(s, NULL, 16)

  predicate IsSpace(c: char) { c == ' ' || 9 <= c as int <= 13 }

  function HexDigit(c: char): (d: nat)
    ensures d <= 16
  {
    if '0' <= c <= '9' then (c - '0') as nat
    else if 'a' <= c <= 'f' then (c - 'a') as nat + 10
    else if 'A' <= c <= 'F' then (c - 'A') as nat + 10
    else 16
  }

  function HexValue(s: string, acc: nat): nat {
    if s == [] || HexDigit(s[0]) == 16 then acc else HexValue(s[1..], acc * 16 + HexDigit(s[0]))
  }

  function SkipBlanks(s: string): string {
    if s != [] && IsSpace(s[0]) then SkipBlanks(s[1..]) else s
  }

  function SkipPrefix(s: string): string {
    if |s| > 2 && s[0] == '0' && (s[1] == 'x' || s[1] == 'X') && HexDigit(s[2]) < 16 then s[2..] else s
  }

  function StrToUl(s: string): U64 {
    var t := SkipBlanks(s);
    var signed := t != [] && (t[0] == '+' || t[0] == '-');
    var n := HexValue(SkipPrefix(if signed then t[1..] else t), 0);
    if n >= TWO_64 then TWO_64 - 1
    else if signed && t[0] == '-' then (TWO_64 - n) % TWO_64
    else n
  }

  // ---------------------------------------------------------------- lines

  /** `Aborting` lines fail an assertion of the parser: they have no key, or a value that is no address. */
  datatype Line = Ignored | Malformed | Aborting | Definition(name: string, value: U16)

  function ReadLine(l: string): Line {
    if l == [] || l[0] == '#' then Ignored
    else
      var eq := FirstIndex(l, '=');
      if eq == |l| then Malformed
      else
        var key, value := Token(l[..eq]), StrToUl(l[eq + 1..]);
        if key == [] || value >= 0xffff then Aborting else Definition(key, value)
  }

  /** A definition as the maps have it: `NAME = 0x1234`. */
  function PrintLine(name: string, value: U16): string {
    name + (" = 0x" + Hex4(value))
  }

  function HexChar(d: nat): char
    requires d < 16
  {
    "0123456789abcdef"[d]
  }

  function Hex4(v: U16): string {
    [HexChar(v / 0x1000), HexChar(v / 0x100 % 0x10), HexChar(v / 0x10 % 0x10), HexChar(v % 0x10)]
  }

  lemma HexCharDigit(d: nat)
    requires d < 16
    ensures HexDigit(HexChar(d)) == d
  {
  }

  lemma HexDigitsValue(a: nat, b: nat, c: nat, d: nat)
    requires a < 16 && b < 16 && c < 16 && d < 16
    ensures HexValue([HexChar(a), HexChar(b), HexChar(c), HexChar(d)], 0) == 0x1000 * a + 0x100 * b + 0x10 * c + d
  {
    var s := [HexChar(a), HexChar(b), HexChar(c), HexChar(d)];
    HexCharDigit(a);
    HexCharDigit(b);
    HexCharDigit(c);
    HexCharDigit(d);
    assert s[1..][1..] == s[2..] && s[2..][1..] == s[3..] && s[3..][1..] == [];
    var ab := 0x10 * a + b;
    var abc := 0x10 * ab + c;
    assert HexValue(s[3..], abc) == abc * 16 + d;
    assert HexValue(s[2..], ab) == HexValue(s[3..], abc);
    assert HexValue(s[1..], a) == HexValue(s[2..], ab);
  }

  lemma Nibbles(v: U16)
    ensures v == 0x1000 * (v / 0x1000) + 0x100 * (v / 0x100 % 0x10) + 0x10 * (v / 0x10 % 0x10) + v % 0x10
  {
    assert v / 0x100 == 0x10 * (v / 0x1000) + v / 0x100 % 0x10 && v / 0x10 == 0x10 * (v / 0x100) + v / 0x10 % 0x10;
  }

  lemma Hex4Value(v: U16)
    ensures HexValue(Hex4(v), 0) == v
  {
    HexDigitsValue(v / 0x1000, v / 0x100 % 0x10, v / 0x10 % 0x10, v % 0x10);
    Nibbles(v);
  }

  lemma HexPrinted(v: U16)
    ensures StrToUl(" 0x" + Hex4(v)) == v
  {
    var hex := Hex4(v);
    Hex4Value(v);
    HexCharDigit(v / 0x1000);
    assert (" 0x" + hex)[1..] == "0x" + hex && ("0x" + hex)[2..] == hex;
    assert SkipBlanks(" 0x" + hex) == "0x" + hex;
  }

  /** The first word of a word and a space. */
  lemma WordToken(name: string)
    requires name != "" && ' ' !in name
    ensures Token(name + " ") == name
  {
    assert (name + " ")[0] == name[0] && name[0] in name;
    IndexAfter(name, ' ', "");
    assert name + ([' '] + "") == name + " ";
  }

  lemma {:induction false} IndexAfter(a: string, c: char, b: string)
    requires c !in a
    ensures FirstIndex(a + ([c] + b), c) == |a|
  {
    var s := a + ([c] + b);
    if a == [] {
      assert s[0] == c;
    } else {
      assert s[0] == a[0] && a[0] in a && s[1..] == a[1..] + ([c] + b);
      IndexAfter(a[1..], c, b);
    }
  }

  /** A printed definition is read back, for every name that is a word and every address but 0xffff. */
  lemma PrintedLineReadBack(name: string, value: U16)
    requires name != "" && name[0] != '#' && ' ' !in name && '=' !in name && value < 0xffff
    ensures ReadLine(PrintLine(name, value)) == Definition(name, value)
  {
    var l, number := PrintLine(name, value), " 0x" + Hex4(value);
    assert l == (name + " ") + (['='] + number);
    IndexAfter(name + " ", '=', number);
    assert l[0] == name[0];
    assert l[..|name| + 1] == name + " " && l[|name| + 2..] == number;
    WordToken(name);
    HexPrinted(value);
  }

  /** The position of a name among the registers, or REG_MAX: what the generated `in_word_set` looks up. */
  function RegName(name: string): (r: nat)
    ensures r <= REG_MAX
    ensures r < REG_MAX ==> NAMES[r] == name
  {
    NameFrom(name, 0)
  }

  function NameFrom(name: string, i: nat): (r: nat)
    requires i <= REG_MAX
    ensures i <= r <= REG_MAX
    ensures r < REG_MAX ==> NAMES[r] == name
    ensures forall j | i <= j < r :: NAMES[j] != name
    decreases REG_MAX - i
  {
    if i == REG_MAX || NAMES[i] == name then i else NameFrom(name, i + 1)
  }

  type Addresses = a: seq<U16> | |a| == REG_MAX witness seq(REG_MAX, _ => UNSET)

  function Define(addr: Addresses, l: Line): Addresses {
    if l.Definition? && RegName(l.name) < REG_MAX then addr[RegName(l.name) := l.value] else addr
  }

  datatype Error = CannotParse | MissedAddress
  datatype Verdict = Success | Failure(error: Error) | Abort

  /** The lines one after the other, up to the first that cannot be read. */
  function ReadLines(addr: Addresses, lines: seq<string>): (Verdict, Addresses)
    decreases |lines|
  {
    if lines == [] then (Success, addr)
    else
      var l := ReadLine(lines[0]);
      if l.Malformed? then (Failure(CannotParse), addr)
      else if l.Aborting? then (Abort, addr)
      else ReadLines(Define(addr, l), lines[1..])
  }

  function Unset(): Addresses { seq(REG_MAX, _ => UNSET) }

  function Validate(r: (Verdict, Addresses)): (Verdict, Addresses) {
    if r.0 == Success && UNSET in r.1 then (Failure(MissedAddress), r.1) else r
  }

  function ReadMap(text: string): (Verdict, Addresses) {
    Validate(ReadLines(Unset(), SplitLines(text)))
  }

  // ---------------------------------------------------------------- what reading the lines comes to

  predicate CanRead(lines: seq<string>) {
    forall i | 0 <= i < |lines| :: ReadLine(lines[i]).Ignored? || ReadLine(lines[i]).Definition?
  }

  predicate ReadsAs(line: string, name: string) {
    ReadLine(line).Definition? && ReadLine(line).name == name
  }

  /** Line `i` is the last that defines `name`. */
  ghost predicate LastReadsAs(lines: seq<string>, name: string, i: nat) {
    && i < |lines| && ReadsAs(lines[i], name)
    && forall j | i < j < |lines| :: !ReadsAs(lines[j], name)
  }

  ghost predicate SomeReadsAs(lines: seq<string>, name: string) {
    exists i :: LastReadsAs(lines, name, i)
  }

  /** A register that is defined gets the address of its last definition. */
  lemma {:induction false} LastDefinitionWins(addr: Addresses, lines: seq<string>, r: nat, i: nat)
    requires r < REG_MAX && CanRead(lines) && LastReadsAs(lines, NAMES[r], i)
    ensures ReadLines(addr, lines).1[r] == ReadLine(lines[i]).value
    decreases |lines|
  {
    var rest, addr' := lines[1..], Define(addr, ReadLine(lines[0]));
    assert forall j | 0 <= j < |rest| :: rest[j] == lines[j + 1];
    assert ReadLines(addr, lines) == ReadLines(addr', rest);
    if i > 0 {
      LastDefinitionWins(addr', rest, r, i - 1);
    } else {
      NamesDistinct(r);
      UndefinedStays(addr', rest, r);
    }
  }

  /** A register that is not defined keeps its address. */
  lemma {:induction false} UndefinedStays(addr: Addresses, lines: seq<string>, r: nat)
    requires r < REG_MAX && CanRead(lines)
    requires forall j | 0 <= j < |lines| :: !ReadsAs(lines[j], NAMES[r])
    ensures ReadLines(addr, lines).1[r] == addr[r]
    decreases |lines|
  {
    if lines != [] {
      var rest := lines[1..];
      assert forall j | 0 <= j < |rest| :: rest[j] == lines[j + 1];
      assert !ReadsAs(lines[0], NAMES[r]);
      UndefinedStays(Define(addr, ReadLine(lines[0])), rest, r);
    }
  }

  lemma {:induction false} ReadableIff(addr: Addresses, lines: seq<string>)
    ensures ReadLines(addr, lines).0 == Success <==> CanRead(lines)
    decreases |lines|
  {
    if lines != [] {
      var rest := lines[1..];
      ReadableIff(Define(addr, ReadLine(lines[0])), rest);
      assert forall j | 0 <= j < |rest| :: rest[j] == lines[j + 1];
      if CanRead(rest) && !CanRead(lines) {
        assert ReadLine(lines[0]).Malformed? || ReadLine(lines[0]).Aborting?;
      }
    }
  }

  lemma {:induction false} FindLast(lines: seq<string>, name: string, j: nat) returns (i: nat)
    requires j < |lines| && ReadsAs(lines[j], name)
    ensures LastReadsAs(lines, name, i)
    decreases |lines| - j
  {
    if k :| j < k < |lines| && ReadsAs(lines[k], name) {
      i := FindLast(lines, name, k);
    } else {
      i := j;
    }
  }

  ghost predicate AllRead(lines: seq<string>) {
    forall r | 0 <= r < REG_MAX :: SomeReadsAs(lines, NAMES[r])
  }

  /**
   * A map is accepted iff every line is blank, a comment or a definition, and every register has a definition;
   * each address is then that of the last definition of its name, and other names do not matter.
   */
  lemma MapReadIff(text: string)
    ensures
      var lines := SplitLines(text);
      ReadMap(text).0 == Success <==> CanRead(lines) && AllRead(lines)
  {
    var lines := SplitLines(text);
    ReadableIff(Unset(), lines);
    if CanRead(lines) {
      forall r | 0 <= r < REG_MAX
        ensures ReadLines(Unset(), lines).1[r] != UNSET <==> SomeReadsAs(lines, NAMES[r])
      {
        if i: nat :| LastReadsAs(lines, NAMES[r], i) {
          LastDefinitionWins(Unset(), lines, r, i);
        } else {
          forall j | 0 <= j < |lines|
            ensures !ReadsAs(lines[j], NAMES[r])
          {
            if ReadsAs(lines[j], NAMES[r]) {
              var i := FindLast(lines, NAMES[r], j);
            }
          }
          UndefinedStays(Unset(), lines, r);
        }
      }
      assert (exists r :: 0 <= r < REG_MAX && ReadLines(Unset(), lines).1[r] == UNSET)
        <==> UNSET in ReadLines(Unset(), lines).1;
    }
  }

  lemma ReadAddresses(text: string, r: nat, i: nat)
    requires ReadMap(text).0 == Success && r < REG_MAX
    requires LastReadsAs(SplitLines(text), NAMES[r], i)
    ensures ReadMap(text).1[r] == ReadLine(SplitLines(text)[i]).value
  {
    MapReadIff(text);
    LastDefinitionWins(Unset(), SplitLines(text), r, i);
  }

  /** Every name finds its own register. */
  lemma NamesDistinct(r: nat)
    requires r < REG_MAX
    ensures RegName(NAMES[r]) == r
  {
    var i := RegName(NAMES[r]);
    assert |NAMES[0]| == 11 && |NAMES[1]| == 15 && |NAMES[2]| == 15 && |NAMES[3]| == 8;
  }
}
