/**
 * The parser of src/reg.c: it cuts the text into lines, keys and values by writing NUL characters into it.
 * It is proved to read the map as `RegMap` does, which works on values and cuts nothing.
 */
module RegParser {
  import opened Bytes
  import opened RegMap

  /** The C string at position `c` of the buffer is `s`. */
  ghost predicate StringAt(buf: seq<char>, c: nat, s: string) {
    c + |s| < |buf| && buf[c..c + |s|] == s && buf[c + |s|] == '\0' && '\0' !in s
  }

  lemma StringElements(buf: seq<char>, c: nat, s: string, i: nat)
    requires StringAt(buf, c, s) && i <= |s|
    ensures buf[c + i] == (if i < |s| then s[i] else '\0')
  {
    if i < |s| {
      assert buf[c..c + |s|][i] == s[i];
    }
  }

  /** A string cut in two by a NUL. */
  lemma CutString(buf: seq<char>, c: nat, s: string, i: nat)
    requires StringAt(buf, c, s) && i < |s|
    ensures StringAt(buf[c + i := '\0'], c, s[..i])
    ensures StringAt(buf[c + i := '\0'], c + i + 1, s[i + 1..])
  {
    var cut := buf[c + i := '\0'];
    assert cut[c..c + i] == buf[c..c + |s|][..i];
    assert cut[c + i + 1..c + |s|] == buf[c..c + |s|][i + 1..];
  }

  /** strchr: the position of the first `ch`, or -1. */
  method StrChr(text: array<char>, c: nat, ch: char, ghost s: string) returns (p: int)
    requires StringAt(text[..], c, s) && ch != '\0'
    ensures p == if FirstIndex(s, ch) < |s| then c + FirstIndex(s, ch) else -1
  {
    p := c;
    StringElements(text[..], c, s, 0);
    while text[p] != '\0' && text[p] != ch
      invariant c <= p <= c + |s|
      invariant text[p] == (if p - c < |s| then s[p - c] else '\0')
      invariant FirstIndex(s, ch) == p - c + FirstIndex(s[p - c..], ch)
      decreases c + |s| - p
    {
      assert s[p - c..][1..] == s[p - c + 1..];
      p := p + 1;
      StringElements(text[..], c, s, p - c);
    }
    if text[p] == '\0' {
      assert s[p - c..] == [];
      p := -1;
    }
  }

  /** The C string at `c`. */
  method CString(text: array<char>, c: nat, ghost s: string) returns (r: string)
    requires StringAt(text[..], c, s)
    ensures r == s
  {
    var p := c;
    StringElements(text[..], c, s, 0);
    while text[p] != '\0'
      invariant c <= p <= c + |s|
      invariant text[p] == (if p - c < |s| then s[p - c] else '\0')
      decreases c + |s| - p
    {
      assert s[p - c] in s;
      p := p + 1;
      StringElements(text[..], c, s, p - c);
    }
    r := text[c..p];
  }

  /** x_strchr: cuts the string at the first `ch` and returns what follows, or -1. */
  method XStrChr(text: array<char>, c: nat, ch: char, ghost s: string) returns (n: int)
    requires StringAt(text[..], c, s) && ch != '\0'
    modifies text
    ensures
      var i := FirstIndex(s, ch);
      && StringAt(text[..], c, s[..i])
      && (if i < |s| then
            && n == c + i + 1 && StringAt(text[..], n, s[i + 1..])
            && text[..] == old(text[..])[c + i := '\0']
          else n == -1 && text[..] == old(text[..]))
  {
    n := StrChr(text, c, ch, s);
    if n >= 0 {
      CutString(text[..], c, s, FirstIndex(s, ch));
      text[n] := '\0';
      n := n + 1;
    } else {
      assert s[..|s|] == s;
    }
  }

  /** Nothing but the string of length `n` at `c` has changed, its NUL included. */
  ghost predicate OnlyWithin(before: seq<char>, after: seq<char>, c: nat, n: nat) {
    |after| == |before| && forall k | 0 <= k < |before| && !(c <= k < c + n) :: after[k] == before[k]
  }

  /** strtok(line, " "): the first word, cut off, or -1. */
  method StrTok(text: array<char>, c: nat, ghost s: string) returns (t: int)
    requires StringAt(text[..], c, s)
    modifies text
    ensures OnlyWithin(old(text[..]), text[..], c, |s|)
    ensures Token(s) == "" <==> t == -1
    ensures t != -1 ==> 0 <= t && StringAt(text[..], t, Token(s))
  {
    t := c;
    ghost var rest := s;
    StringElements(text[..], c, s, 0);
    while text[t] == ' '
      invariant text[..] == old(text[..])
      invariant c <= t && t + |rest| == c + |s| && StringAt(text[..], t, rest)
      invariant SkipSpaces(s) == SkipSpaces(rest)
      decreases |rest|
    {
      StringElements(text[..], t, rest, 0);
      assert rest != [];
      assert text[..][t + 1..t + 1 + |rest[1..]|] == text[..][t..t + |rest|][1..];
      t, rest := t + 1, rest[1..];
    }
    StringElements(text[..], t, rest, 0);
    assert SkipSpaces(s) == rest;
    if text[t] == '\0' {
      t := -1;
    } else {
      ghost var before, i := text[..], FirstIndex(rest, ' ');
      var e := XStrChr(text, t, ' ', rest);
      assert text[..] == if i < |rest| then before[t + i := '\0'] else before;
    }
  }

  datatype LineVerdict = LineOk | LineMalformed | LineAborts

  function VerdictOf(l: Line): LineVerdict {
    if l.Malformed? then LineMalformed else if l.Aborting? then LineAborts else LineOk
  }

  /** A string after the part that changed is still there. */
  lemma Untouched(before: seq<char>, after: seq<char>, c: nat, n: nat, at: nat, s: string)
    requires OnlyWithin(before, after, c, n) && c + n <= at && StringAt(before, at, s)
    ensures StringAt(after, at, s)
  {
    assert after[at..at + |s|] == before[at..at + |s|];
  }

  /** Reading a text is reading its first line, and then the text after it. */
  lemma FirstLine(addr: Addresses, text: string)
    ensures
      var i := FirstIndex(text, '\n');
      var l := ReadLine(text[..i]);
      ReadLines(addr, SplitLines(text))
      == (if l.Malformed? then (Failure(CannotParse), addr)
          else if l.Aborting? then (Abort, addr)
          else if i == |text| then (Success, Define(addr, l))
          else ReadLines(Define(addr, l), SplitLines(text[i + 1..])))
  {
    var i := FirstIndex(text, '\n');
    if i == |text| {
      assert text[..i] == text;
      assert [text][1..] == [];
    } else {
      assert ([text[..i]] + SplitLines(text[i + 1..]))[1..] == SplitLines(text[i + 1..]);
    }
  }

  class Reg {
    const addr: array<U16>

    constructor ()
      ensures fresh(addr) && addr.Length == REG_MAX && addr[..] == Unset()
    {
      addr := new U16[REG_MAX](_ => UNSET);
    }

    /** An unknown name is ignored, like in C, where the result of this function is. */
    method FromPair(key: string, value: U16)
      requires addr.Length == REG_MAX
      modifies addr
      ensures addr[..] == Define(old(addr[..]), Definition(key, value))
    {
      var name := RegName(key);
      if name < REG_MAX {
        addr[name] := value;
      }
    }

    /** One line, cut into key and value; only its own characters change. */
    method FromLine(text: array<char>, c: nat, ghost line: string) returns (v: LineVerdict)
      requires addr.Length == REG_MAX && StringAt(text[..], c, line)
      modifies text, addr
      ensures OnlyWithin(old(text[..]), text[..], c, |line|)
      ensures v == VerdictOf(ReadLine(line))
      ensures addr[..] == Define(old(addr[..]), ReadLine(line))
    {
      StringElements(text[..], c, line, 0);
      if text[c] == '\0' || text[c] == '#' {
        return LineOk;
      }
      ghost var eq := FirstIndex(line, '=');
      ghost var before := text[..];
      var value := XStrChr(text, c, '=', line);
      assert OnlyWithin(before, text[..], c, |line|);
      if value == -1 {
        return LineMalformed;
      }
      v := DefineFrom(text, c, value, line[..eq], line[eq + 1..]);
    }

    /** The key at `c` and the value at `at`. */
    method DefineFrom(text: array<char>, c: nat, at: nat, ghost left: string, ghost right: string)
      returns (v: LineVerdict)
      requires addr.Length == REG_MAX && StringAt(text[..], c, left) && StringAt(text[..], at, right)
      requires at == c + |left| + 1
      modifies text, addr
      ensures OnlyWithin(old(text[..]), text[..], c, |left|)
      ensures
        var key, value := Token(left), StrToUl(right);
        if key == "" || value >= 0xffff then v == LineAborts && addr[..] == old(addr[..])
        else v == LineOk && addr[..] == Define(old(addr[..]), Definition(key, value))
    {
      ghost var before := text[..];
      var key := StrTok(text, c, left);
      if key == -1 {
        return LineAborts;
      }
      Untouched(before, text[..], c, |left|, at, right);
      var digits := CString(text, at, right);
      var value := StrToUl(digits);
      if value >= 0xffff {
        return LineAborts;
      }
      var name := CString(text, key, Token(left));
      FromPair(name, value);
      v := LineOk;
    }

    method HasUnset() returns (missing: bool)
      requires addr.Length == REG_MAX
      ensures missing == (UNSET in addr[..])
    {
      for i := 0 to REG_MAX
        invariant UNSET !in addr[..i]
      {
        if addr[i] == UNSET {
          return true;
        }
      }
      assert addr[..REG_MAX] == addr[..];
      return false;
    }

    /** The lines of the string `s` at the start of the text, up to the first that cannot be read. */
    method ReadText(text: array<char>, ghost s: string) returns (v: Verdict)
      requires addr.Length == REG_MAX && StringAt(text[..], 0, s)
      modifies text, addr
      ensures (v, addr[..]) == ReadLines(old(addr[..]), SplitLines(s))
    {
      var c := 0;
      ghost var rest := s;
      ghost var start := addr[..];
      while true
        invariant 0 <= c && StringAt(text[..], c, rest)
        invariant ReadLines(start, SplitLines(s)) == ReadLines(addr[..], SplitLines(rest))
        decreases |rest|
      {
        ghost var i := FirstIndex(rest, '\n');
        FirstLine(addr[..], rest);
        var n := XStrChr(text, c, '\n', rest);
        ghost var before := text[..];
        var lv := FromLine(text, c, rest[..i]);
        if lv == LineMalformed {
          return Failure(CannotParse);
        } else if lv == LineAborts {
          return Abort;
        }
        if n == -1 {
          return Success;
        }
        Untouched(before, text[..], c, i, n, rest[i + 1..]);
        c, rest := n, rest[i + 1..];
      }
    }

    /** reg_init_from_map, for a register map `s`. */
    method InitFromMap(text: array<char>, ghost s: string) returns (v: Verdict)
      requires addr.Length == REG_MAX && addr[..] == Unset() && StringAt(text[..], 0, s)
      modifies text, addr
      ensures (v, addr[..]) == ReadMap(s)
    {
      v := ReadText(text, s);
      if v == Success {
        var missing := HasUnset();
        if missing {
          v := Failure(MissedAddress);
        }
      }
    }
  }
}
