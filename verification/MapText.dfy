/**
 * What a register map means, said of its text: lines that are comments, and lines with a name, '=' and a number.  The
 * parser of `RegMap` accepts exactly the maps that mean something, and takes the addresses they give.
 */
module MapText {
  import opened Bytes
  import opened RegMap

  // ---------------------------------------------------------------- numbers

  /** `c` is the hexadecimal digit `d`, in ASCII, with letters of either case. */
  predicate IsDigit(c: char, d: nat) {
    || (d < 10 && c as int == 48 + d)
    || (10 <= d < 16 && (c as int == 65 + d - 10 || c as int == 97 + d - 10))
  }

  predicate NoDigit(c: char) {
    !(48 <= c as int < 58) && !(65 <= c as int < 71) && !(97 <= c as int < 103)
  }

  predicate Spells(chars: string, ds: seq<nat>) {
    |chars| == |ds| && forall i | 0 <= i < |ds| :: IsDigit(chars[i], ds[i])
  }

  /** The number with the hexadecimal digits `ds`. */
  function Number(ds: seq<nat>): nat {
    if ds == [] then 0 else 16 * Number(ds[..|ds| - 1]) + ds[|ds| - 1]
  }

  predicate IsBlank(c: char) { c in {' ', '\t', '\n', '\r', 11 as char, 12 as char} }

  /** The parts of a number at the front of a text: what strtoul reads with base 16, and what it leaves. */
  datatype Numeral = Numeral(
    blanks: string, sign: string, prefix: string, chars: string, digits: seq<nat>, rest: string)
  {
    ghost predicate Of(s: string) {
      && s == blanks + (sign + (prefix + (chars + rest)))
      && (forall i | 0 <= i < |blanks| :: IsBlank(blanks[i]))
      && sign in {"", "+", "-"}
      && prefix in {"", "0x", "0X"}
      && Spells(chars, digits)
      && (rest != "" ==> NoDigit(rest[0]))
      && Greedy()
    }

    /** Blanks, sign and prefix are taken where they can be. */
    ghost predicate Greedy() {
      && (prefix != "" ==> chars != "")
      && (prefix == "" && chars == "0" && |rest| >= 2 && rest[0] in {'x', 'X'} ==> NoDigit(rest[1]))
      && (sign == "" && chars == "" && rest != "" ==> !IsBlank(rest[0]) && rest[0] != '+' && rest[0] != '-')
    }

    /** Its value in 64 bits: at most the largest, and the complement of a negative one. */
    function Value(): U64 {
      var n := Number(digits);
      if n >= 0x1_0000_0000_0000_0000 then 0xffff_ffff_ffff_ffff
      else if sign == "-" then (0x1_0000_0000_0000_0000 - n) % 0x1_0000_0000_0000_0000
      else n
    }
  }

  lemma DigitIs(c: char)
    ensures forall d: nat | IsDigit(c, d) :: HexDigit(c) == d
    ensures HexDigit(c) < 16 ==> IsDigit(c, HexDigit(c))
    ensures HexDigit(c) == 16 <==> NoDigit(c)
  {
    assert '0' as int == 48 && 'A' as int == 65 && 'a' as int == 97;
    assert '9' as int == 57 && 'F' as int == 70 && 'f' as int == 102;
  }

  lemma BlankIs(c: char)
    ensures IsSpace(c) <==> IsBlank(c)
  {
    assert '\t' as int == 9 && '\n' as int == 10 && '\r' as int == 13;
    if IsSpace(c) && c != ' ' {
      assert c == c as int as char;
    }
  }

  lemma HexStep(c: char, d: nat, t: string, acc: nat)
    requires IsDigit(c, d)
    ensures HexValue([c] + t, acc) == HexValue(t, acc * 16 + d)
  {
    DigitIs(c);
    assert ([c] + t)[1..] == t;
  }

  lemma NumberSnoc(done: seq<nat>, d: nat)
    ensures Number(done + [d]) == Number(done) * 16 + d
  {
    assert (done + [d])[..|done|] == done;
  }

  lemma HexEnd(t: string, acc: nat)
    requires t != "" ==> NoDigit(t[0])
    ensures HexValue(t, acc) == acc
  {
    if t != "" { DigitIs(t[0]); }
  }

  /** Digits, for any number of them, up to the first character that is none. */
  lemma {:induction false} HexIsNumber(chars: string, ds: seq<nat>, rest: string, done: seq<nat>)
    requires Spells(chars, ds) && (rest != "" ==> NoDigit(rest[0]))
    ensures HexValue(chars + rest, Number(done)) == Number(done + ds)
    decreases |chars|
  {
    if chars == "" {
      assert chars + rest == rest && done + ds == done;
      HexEnd(rest, Number(done));
    } else {
      var c, d := chars[0], ds[0];
      assert IsDigit(c, d);
      NumberSnoc(done, d);
      HexIsNumber(chars[1..], ds[1..], rest, done + [d]);
      assert done + [d] + ds[1..] == done + ds;
      HexStep(c, d, chars[1..] + rest, Number(done));
      assert chars + rest == [c] + (chars[1..] + rest);
    }
  }

  lemma {:induction false} BlanksSkipped(blanks: string, t: string)
    requires forall i | 0 <= i < |blanks| :: IsBlank(blanks[i])
    requires t != "" ==> !IsBlank(t[0])
    ensures SkipBlanks(blanks + t) == t
  {
    if blanks == "" {
      assert blanks + t == t;
      if t != "" { BlankIs(t[0]); }
    } else {
      BlankIs(blanks[0]);
      assert (blanks + t)[1..] == blanks[1..] + t;
      BlanksSkipped(blanks[1..], t);
    }
  }

  /** A prefix is taken where a digit follows it. */
  lemma PrefixTaken(prefix: string, u: string)
    requires prefix == "0x" || prefix == "0X"
    requires u != "" && !NoDigit(u[0])
    ensures SkipPrefix(prefix + u) == u
  {
    DigitIs(u[0]);
    assert (prefix + u)[2] == u[0] && (prefix + u)[2..] == u;
  }

  /** Digits without a prefix are not taken for one. */
  lemma NoPrefixTaken(chars: string, ds: seq<nat>, rest: string)
    requires Spells(chars, ds) && (rest != "" ==> NoDigit(rest[0]))
    requires chars == "0" && |rest| >= 2 && rest[0] in {'x', 'X'} ==> NoDigit(rest[1])
    ensures SkipPrefix(chars + rest) == chars + rest
  {
    var u := chars + rest;
    assert |chars| > 1 ==> IsDigit(u[1], ds[1]);
    if |u| > 2 && u[0] == '0' && (u[1] == 'x' || u[1] == 'X') {
      DigitIs(u[0]);
      DigitIs(u[1]);
      DigitIs(u[2]);
      if |chars| == 1 {
        assert u[1] == rest[0] && u[2] == rest[1];
      }
    }
  }

  /** After the sign: the prefix is taken or there is none. */
  lemma PrefixSkipped(n: Numeral)
    requires n.prefix in {"", "0x", "0X"} && Spells(n.chars, n.digits) && (n.rest != "" ==> NoDigit(n.rest[0]))
    requires n.Greedy()
    ensures SkipPrefix(n.prefix + (n.chars + n.rest)) == n.chars + n.rest
  {
    var u := n.chars + n.rest;
    if n.prefix != "" {
      assert IsDigit(u[0], n.digits[0]);
      DigitIs(u[0]);
      PrefixTaken(n.prefix, u);
    } else {
      NoPrefixTaken(n.chars, n.digits, n.rest);
      assert n.prefix + u == u;
    }
  }

  lemma BodyStart(n: Numeral)
    requires n.sign == "" && n.prefix in {"", "0x", "0X"} && Spells(n.chars, n.digits)
    requires n.Greedy()
    ensures
      var t := n.prefix + (n.chars + n.rest);
      t != "" ==> !IsBlank(t[0]) && t[0] != '+' && t[0] != '-'
  {
    if n.prefix == "" && n.chars != "" {
      var c := n.chars[0];
      assert IsDigit(c, n.digits[0]);
      DigitIs(c);
      BlankIs(c);
    }
  }

  /** What follows the blanks, with its sign. */
  lemma SignTaken(n: Numeral)
    requires n.sign in {"", "+", "-"} && n.prefix in {"", "0x", "0X"} && Spells(n.chars, n.digits) && n.Greedy()
    ensures
      var body := n.prefix + (n.chars + n.rest);
      var t := n.sign + body;
      && (t != "" ==> !IsBlank(t[0]))
      && (n.sign == "" ==> t == body && (t != "" ==> t[0] != '+' && t[0] != '-'))
      && (n.sign != "" ==> t[0] == n.sign[0] && t[1..] == body)
  {
    if n.sign == "" {
      assert n.sign + (n.prefix + (n.chars + n.rest)) == n.prefix + (n.chars + n.rest);
      BodyStart(n);
    }
  }

  /** strtoul, step by step. */
  lemma StrToUlSteps(s: string, t: string, sign: string, body: string, k: nat)
    requires SkipBlanks(s) == t && HexValue(SkipPrefix(body), 0) == k && sign in {"", "+", "-"}
    requires sign == "" ==> t == body && (t != "" ==> t[0] != '+' && t[0] != '-')
    requires sign != "" ==> t != "" && t[0] == sign[0] && t[1..] == body
    ensures StrToUl(s)
         == if k >= 0x1_0000_0000_0000_0000 then 0xffff_ffff_ffff_ffff
            else if sign == "-" then (0x1_0000_0000_0000_0000 - k) % 0x1_0000_0000_0000_0000
            else k
  {
  }

  lemma DigitsRead(n: Numeral)
    requires n.prefix in {"", "0x", "0X"} && Spells(n.chars, n.digits) && (n.rest != "" ==> NoDigit(n.rest[0]))
    requires n.Greedy()
    ensures HexValue(SkipPrefix(n.prefix + (n.chars + n.rest)), 0) == Number(n.digits)
  {
    PrefixSkipped(n);
    HexIsNumber(n.chars, n.digits, n.rest, []);
    assert [] + n.digits == n.digits;
  }

  /** The parser reads the value of the number at the front of the text. */
  lemma NumeralIsRead(s: string, n: Numeral)
    requires n.Of(s)
    ensures StrToUl(s) == n.Value()
  {
    var body := n.prefix + (n.chars + n.rest);
    SignTaken(n);
    BlanksSkipped(n.blanks, n.sign + body);
    DigitsRead(n);
    StrToUlSteps(s, n.sign + body, n.sign, body, Number(n.digits));
  }

  lemma {:induction false} TakeDigits(s: string) returns (chars: string, ds: seq<nat>, rest: string)
    ensures s == chars + rest && Spells(chars, ds) && (rest != "" ==> NoDigit(rest[0]))
  {
    if s == "" || HexDigit(s[0]) == 16 {
      chars, ds, rest := "", [], s;
      if s != "" { DigitIs(s[0]); }
    } else {
      var c, e, r := TakeDigits(s[1..]);
      DigitIs(s[0]);
      chars, ds, rest := [s[0]] + c, [HexDigit(s[0])] + e, r;
    }
  }

  lemma {:induction false} TakeBlanks(s: string) returns (blanks: string, t: string)
    ensures s == blanks + t && (forall i | 0 <= i < |blanks| :: IsBlank(blanks[i])) && (t != "" ==> !IsBlank(t[0]))
  {
    if s == "" || !IsBlank(s[0]) {
      blanks, t := "", s;
    } else {
      var b, u := TakeBlanks(s[1..]);
      blanks, t := [s[0]] + b, u;
    }
  }

  lemma TakePrefix(u: string) returns (prefix: string, v: string)
    ensures u == prefix + v && prefix in {"", "0x", "0X"}
    ensures prefix != "" ==> v != "" && !NoDigit(v[0])
    ensures prefix == "" && |u| > 2 && u[0] == '0' && u[1] in {'x', 'X'} ==> NoDigit(u[2])
  {
    if |u| > 2 && u[0] == '0' && u[1] in {'x', 'X'} && !NoDigit(u[2]) {
      prefix, v := u[..2], u[2..];
      assert prefix == "0x" || prefix == "0X";
    } else {
      prefix, v := "", u;
    }
  }

  lemma TakeSign(t: string) returns (sign: string, u: string)
    ensures t == sign + u && sign in {"", "+", "-"}
    ensures sign == "" && u != "" ==> u[0] != '+' && u[0] != '-'
  {
    if t != "" && (t[0] == '+' || t[0] == '-') {
      sign, u := t[..1], t[1..];
      assert sign == "+" || sign == "-";
    } else {
      sign, u := "", t;
    }
  }

  /** No prefix is taken only where there is none. */
  lemma PrefixGreedily(n: Numeral, u: string)
    requires n.prefix == "" && u == n.chars + n.rest
    requires |u| > 2 && u[0] == '0' && u[1] in {'x', 'X'} ==> NoDigit(u[2])
    ensures n.chars == "0" && |n.rest| >= 2 && n.rest[0] in {'x', 'X'} ==> NoDigit(n.rest[1])
  {
    if n.chars == "0" && |n.rest| >= 2 {
      assert u[0] == '0' && u[1] == n.rest[0] && u[2] == n.rest[1];
    }
  }

  /** Signs, prefixes and blanks taken where they can be are taken greedily. */
  lemma TakenGreedily(n: Numeral, t: string, u: string, v: string)
    requires t == n.sign + u && u == n.prefix + v && v == n.chars + n.rest && Spells(n.chars, n.digits)
    requires n.rest != "" ==> NoDigit(n.rest[0])
    requires t != "" ==> !IsBlank(t[0])
    requires n.sign == "" && u != "" ==> u[0] != '+' && u[0] != '-'
    requires n.prefix != "" ==> v != "" && !NoDigit(v[0])
    requires n.prefix == "" && |u| > 2 && u[0] == '0' && u[1] in {'x', 'X'} ==> NoDigit(u[2])
    ensures n.Greedy()
  {
    if n.prefix == "" {
      assert u == v;
      PrefixGreedily(n, u);
      if n.chars == "" && n.sign == "" {
        assert n.rest == v && u == t;
      }
    }
  }

  /** Every text has a number at its front, if only one without digits, which is 0. */
  lemma NumeralExists(s: string) returns (n: Numeral)
    ensures n.Of(s)
  {
    var blanks, t := TakeBlanks(s);
    var sign, u := TakeSign(t);
    var prefix, v := TakePrefix(u);
    var chars, ds, rest := TakeDigits(v);
    n := Numeral(blanks, sign, prefix, chars, ds, rest);
    TakenGreedily(n, t, u, v);
  }

  // ---------------------------------------------------------------- lines

  /** A blank line, or a comment. */
  predicate IsIgnored(l: string) { l == "" || l[0] == '#' }

  /** The first word of `s` is `name`, at `i`. */
  predicate WordAt(s: string, i: nat, name: string) {
    && i + |name| <= |s| && s[i..i + |name|] == name && name != ""
    && (forall k | 0 <= k < i :: s[k] == ' ')
    && ' ' !in name
    && (i + |name| < |s| ==> s[i + |name|] == ' ')
  }

  /** The line is a word, '=' and a number below 0xffff, with the first '=' at `eq`. */
  ghost predicate DefinesAt(l: string, eq: nat, i: nat, n: Numeral, name: string, value: U16) {
    && eq < |l| && l[eq] == '=' && '=' !in l[..eq]
    && WordAt(l[..eq], i, name)
    && n.Of(l[eq + 1..]) && n.Value() == value < 0xffff
  }

  ghost predicate IsDefinition(l: string, name: string, value: U16) {
    !IsIgnored(l) && exists eq, i, n :: DefinesAt(l, eq, i, n, name, value)
  }

  lemma NotIn(s: string, c: char)
    requires c !in s
    ensures FirstIndex(s, c) == |s|
  {
    assert forall k | 0 <= k < |s| :: s[k] in s;
  }

  lemma {:induction false} WordIsToken(s: string, i: nat, name: string)
    requires WordAt(s, i, name)
    ensures Token(s) == name
    decreases i
  {
    if i == 0 {
      assert s[0] == name[0] && name[0] in name;
      assert s == name + s[|name|..];
      if |name| < |s| {
        IndexAfter(name, ' ', s[|name| + 1..]);
        assert s == name + ([' '] + s[|name| + 1..]);
      } else {
        assert s == name;
        NotIn(s, ' ');
      }
    } else {
      assert s[0] == ' ';
      assert s[1..][i - 1..i - 1 + |name|] == s[i..i + |name|];
      WordIsToken(s[1..], i - 1, name);
    }
  }

  lemma {:induction false} TokenIsWord(s: string) returns (i: nat)
    requires Token(s) != ""
    ensures WordAt(s, i, Token(s))
  {
    if s != "" && s[0] == ' ' {
      var j := TokenIsWord(s[1..]);
      i := j + 1;
      assert s[1..][j..j + |Token(s)|] == s[i..i + |Token(s)|];
    } else {
      i := 0;
      assert s[0..|Token(s)|] == Token(s);
    }
  }

  lemma FirstIndexIs(l: string, eq: nat)
    requires eq < |l| && l[eq] == '=' && '=' !in l[..eq]
    ensures FirstIndex(l, '=') == eq
  {
    IndexAfter(l[..eq], '=', l[eq + 1..]);
    assert l == l[..eq] + (['='] + l[eq + 1..]);
  }

  lemma IgnoredIs(l: string)
    ensures ReadLine(l).Ignored? <==> IsIgnored(l)
    ensures ReadLine(l).Malformed? <==> !IsIgnored(l) && '=' !in l
  {
    var eq := FirstIndex(l, '=');
    if eq == |l| {
      assert l[..eq] == l;
    } else {
      assert l[eq] in l;
    }
  }

  /** A definition that is read is one in the text. */
  lemma ReadIsDefinition(l: string, name: string, value: U16)
    requires ReadLine(l) == Definition(name, value)
    ensures IsDefinition(l, name, value)
  {
    IgnoredIs(l);
    var eq := FirstIndex(l, '=');
    var i := TokenIsWord(l[..eq]);
    var n := NumeralExists(l[eq + 1..]);
    NumeralIsRead(l[eq + 1..], n);
    assert DefinesAt(l, eq, i, n, name, value);
  }

  /** A definition in the text is read as that. */
  lemma DefinitionIsRead(l: string, eq: nat, i: nat, n: Numeral, name: string, value: U16)
    requires !IsIgnored(l) && DefinesAt(l, eq, i, n, name, value)
    ensures ReadLine(l) == Definition(name, value)
  {
    FirstIndexIs(l, eq);
    WordIsToken(l[..eq], i, name);
    NumeralIsRead(l[eq + 1..], n);
  }

  /** What the parser makes of a line, in terms of its characters. */
  lemma LineIs(l: string, name: string, value: U16)
    ensures ReadLine(l).Ignored? <==> IsIgnored(l)
    ensures ReadLine(l).Malformed? <==> !IsIgnored(l) && '=' !in l
    ensures ReadLine(l) == Definition(name, value) <==> IsDefinition(l, name, value)
  {
    IgnoredIs(l);
    if ReadLine(l) == Definition(name, value) {
      ReadIsDefinition(l, name, value);
    }
    if IsDefinition(l, name, value) {
      var eq, i, n :| DefinesAt(l, eq, i, n, name, value);
      DefinitionIsRead(l, eq, i, n, name, value);
    }
  }

  // ---------------------------------------------------------------- maps

  ghost predicate DefinesName(l: string, name: string) {
    exists value :: IsDefinition(l, name, value)
  }

  /** A line that can be read. */
  ghost predicate Readable(l: string) {
    IsIgnored(l) || exists name :: DefinesName(l, name)
  }

  ghost predicate AllReadable(lines: seq<string>) {
    forall i | 0 <= i < |lines| :: Readable(lines[i])
  }

  ghost predicate DefinedIn(lines: seq<string>, name: string) {
    exists i :: 0 <= i < |lines| && DefinesName(lines[i], name)
  }

  lemma ReadableIs(l: string)
    ensures Readable(l) <==> ReadLine(l).Ignored? || ReadLine(l).Definition?
  {
    LineIs(l, "", 0);
    if ReadLine(l).Definition? {
      LineIs(l, ReadLine(l).name, ReadLine(l).value);
      assert DefinesName(l, ReadLine(l).name);
    }
    if name, value :| IsDefinition(l, name, value) {
      LineIs(l, name, value);
    }
  }

  lemma DefinesIs(l: string, name: string)
    ensures DefinesName(l, name) <==> ReadsAs(l, name)
  {
    if ReadsAs(l, name) {
      LineIs(l, name, ReadLine(l).value);
      assert IsDefinition(l, name, ReadLine(l).value);
    }
    if value :| IsDefinition(l, name, value) {
      LineIs(l, name, value);
    }
  }

  lemma AllReadableIs(lines: seq<string>)
    ensures AllReadable(lines) <==> CanRead(lines)
  {
    forall i | 0 <= i < |lines|
      ensures Readable(lines[i]) <==> ReadLine(lines[i]).Ignored? || ReadLine(lines[i]).Definition?
    {
      ReadableIs(lines[i]);
    }
  }

  lemma DefinedInIs(lines: seq<string>, name: string)
    ensures DefinedIn(lines, name) <==> SomeReadsAs(lines, name)
  {
    if j :| 0 <= j < |lines| && DefinesName(lines[j], name) {
      DefinesIs(lines[j], name);
      var i := FindLast(lines, name, j);
    }
    if i: nat :| LastReadsAs(lines, name, i) {
      DefinesIs(lines[i], name);
    }
  }

  /**
   * A map is accepted iff every line is blank, a comment, or a definition, and each of the registers has a definition;
   * other names do not matter.
   */
  lemma MapAcceptedIff(text: string)
    ensures
      var lines := SplitLines(text);
      ReadMap(text).0 == Success <==> AllReadable(lines) && forall r: nat | r < REG_MAX :: DefinedIn(lines, NAMES[r])
  {
    var lines := SplitLines(text);
    MapReadIff(text);
    AllReadableIs(lines);
    forall r: nat | r < REG_MAX
      ensures DefinedIn(lines, NAMES[r]) <==> SomeReadsAs(lines, NAMES[r])
    {
      DefinedInIs(lines, NAMES[r]);
    }
  }

  /** Each address of an accepted map is that of the last line that defines its name. */
  lemma AcceptedAddresses(text: string, r: nat, i: nat, value: U16)
    requires ReadMap(text).0 == Success && r < REG_MAX && i < |SplitLines(text)|
    requires IsDefinition(SplitLines(text)[i], NAMES[r], value)
    requires forall j | i < j < |SplitLines(text)| :: !DefinesName(SplitLines(text)[j], NAMES[r])
    ensures ReadMap(text).1[r] == value
  {
    var lines := SplitLines(text);
    LineIs(lines[i], NAMES[r], value);
    forall j | i < j < |lines|
      ensures !ReadsAs(lines[j], NAMES[r])
    {
      DefinesIs(lines[j], NAMES[r]);
    }
    ReadAddresses(text, r, i);
  }

  /** Line `i` is the first that cannot be read. */
  ghost predicate FirstUnreadable(lines: seq<string>, i: nat) {
    i < |lines| && !Readable(lines[i]) && AllReadable(lines[..i])
  }

  lemma {:induction false} UnreadableStops(addr: Addresses, lines: seq<string>, i: nat)
    requires FirstUnreadable(lines, i)
    ensures ReadLines(addr, lines).0 == if '=' in lines[i] then Abort else Failure(CannotParse)
    decreases |lines|
  {
    ReadableIs(lines[0]);
    LineIs(lines[0], "", 0);
    if i > 0 {
      assert lines[..i][0] == lines[0];
      assert lines[1..][..i - 1] == lines[..i][1..];
      UnreadableStops(Define(addr, ReadLine(lines[0])), lines[1..], i - 1);
    }
  }

  /** Why a map is not accepted: its first line that cannot be read, or a register that no line defines. */
  lemma MapRejected(text: string)
    ensures
      var lines := SplitLines(text);
      && (forall i: nat | FirstUnreadable(lines, i) ::
            ReadMap(text).0 == if '=' in lines[i] then Abort else Failure(CannotParse))
      && (AllReadable(lines) && ReadMap(text).0 != Success ==> ReadMap(text).0 == Failure(MissedAddress))
  {
    var lines := SplitLines(text);
    forall i: nat | FirstUnreadable(lines, i)
      ensures ReadMap(text).0 == if '=' in lines[i] then Abort else Failure(CannotParse)
    {
      UnreadableStops(Unset(), lines, i);
    }
    AllReadableIs(lines);
    ReadableIff(Unset(), lines);
  }

  // ---------------------------------------------------------------- comments

  predicate NoNewlines(lines: seq<string>) {
    forall i | 0 <= i < |lines| :: '\n' !in lines[i]
  }

  /** Lines joined are split into the same lines. */
  lemma {:induction false} JoinIsInverse(lines: seq<string>)
    requires lines != [] && NoNewlines(lines)
    ensures SplitLines(JoinLines(lines)) == lines
  {
    var t := JoinLines(lines);
    if |lines| == 1 {
      assert FirstIndex(t, '\n') == |t|;
    } else {
      var rest := JoinLines(lines[1..]);
      assert t == lines[0] + (['\n'] + rest);
      IndexAfter(lines[0], '\n', rest);
      assert t[..|lines[0]|] == lines[0] && t[|lines[0]| + 1..] == rest;
      assert forall i | 0 <= i < |lines[1..]| :: lines[1..][i] == lines[i + 1];
      JoinIsInverse(lines[1..]);
    }
  }

  lemma {:induction false} IgnoredLine(addr: Addresses, a: seq<string>, comment: string, b: seq<string>)
    requires IsIgnored(comment)
    ensures ReadLines(addr, a + [comment] + b) == ReadLines(addr, a + b)
    decreases |a|
  {
    var with := a + [comment] + b;
    if a == [] {
      assert with[0] == comment && with[1..] == b && a + b == b;
      LineIs(comment, "", 0);
    } else {
      assert with[0] == a[0] && with[1..] == a[1..] + [comment] + b;
      assert (a + b)[0] == a[0] && (a + b)[1..] == a[1..] + b;
      IgnoredLine(Define(addr, ReadLine(a[0])), a[1..], comment, b);
    }
  }

  /** A comment or a blank line, wherever it is put, changes neither the verdict nor the addresses. */
  lemma CommentsChangeNothing(a: seq<string>, comment: string, b: seq<string>)
    requires IsIgnored(comment) && '\n' !in comment && NoNewlines(a) && NoNewlines(b) && a + b != []
    ensures ReadMap(JoinLines(a + [comment] + b)) == ReadMap(JoinLines(a + b))
  {
    JoinIsInverse(a + [comment] + b);
    JoinIsInverse(a + b);
    IgnoredLine(Unset(), a, comment, b);
  }

  // ---------------------------------------------------------------- the registers

  /** The names of the registers, in the order of their enumeration. */
  lemma Registers()
    ensures |NAMES| == REG_MAX == 15
    ensures NAMES[0] == "CSTREAM_CFG" && NAMES[1] == "CSTREAM_CONS_LO" && NAMES[2] == "CSTREAM_CONS_HI"
    ensures NAMES[3] == "LEDS_OUT"
    ensures NAMES[4] == "SDRAM_HOST_READ_RING_BASE" && NAMES[5] == "SDRAM_HOST_READ_RING_END"
    ensures NAMES[6] == "SDRAM_HOST_READ_GO"
    ensures NAMES[7] == "SDRAM_SINK_PTR_READ" && NAMES[8] == "SDRAM_SINK_RING_BASE"
    ensures NAMES[9] == "SDRAM_SINK_RING_END" && NAMES[10] == "SDRAM_SINK_GO"
    ensures NAMES[11] == "UCFG_WDATA" && NAMES[12] == "UCFG_WCMD"
    ensures NAMES[13] == "UCFG_RDATA" && NAMES[14] == "UCFG_RCMD"
  {
  }
}
