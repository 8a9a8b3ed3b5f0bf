/** The string operations that the boot configuration parser uses, on sequences of Unicode characters. */
module Text {
  import opened Bytes

  /** Unicode White_Space, as `str::trim` uses it. */
  predicate IsSpace(c: char) {
    var u := c as int;
    9 <= u <= 13 || u == 32 || u == 0x85 || u == 0xA0 || u == 0x1680 || 0x2000 <= u <= 0x200A
    || u == 0x2028 || u == 0x2029 || u == 0x202F || u == 0x205F || u == 0x3000
  }

  function TrimStart(s: string): string {
    if s != [] && IsSpace(s[0]) then TrimStart(s[1..]) else s
  }

  function TrimEnd(s: string): string {
    if s != [] && IsSpace(s[|s| - 1]) then TrimEnd(s[..|s| - 1]) else s
  }

  function Trim(s: string): string {
    TrimEnd(TrimStart(s))
  }

  /** Index of the first c, or the length. */
  function Find(s: string, c: char): (i: nat)
    ensures i <= |s| && (forall j | 0 <= j < i :: s[j] != c) && (i < |s| ==> s[i] == c)
  {
    if s == [] || s[0] == c then 0 else 1 + Find(s[1..], c)
  }

  /** `str::lines`. */
  function Lines(s: string): seq<string> {
    if s == [] then []
    else
      var i := Find(s, '\n');
      if i == |s| then [s] else [StripCr(s[..i])] + Lines(s[i + 1..])
  }

  function StripCr(s: string): string {
    if s != [] && s[|s| - 1] == '\r' then s[..|s| - 1] else s
  }

  /** `str::split` on one character. */
  function Split(s: string, c: char): seq<string> {
    var i := Find(s, c);
    if i == |s| then [s] else [s[..i]] + Split(s[i + 1..], c)
  }

  function Join(parts: seq<string>, c: char): string {
    if parts == [] then "" else if |parts| == 1 then parts[0] else parts[0] + [c] + Join(parts[1..], c)
  }

  function Utf8Char(c: char): (b: seq<byte>)
    ensures |b| > 0
  {
    var u := c as int;
    if u < 0x80 then [u as byte]
    else if u < 0x800 then [(0xC0 + u / 0x40) as byte, (0x80 + u % 0x40) as byte]
    else if u < 0x1_0000 then
      [(0xE0 + u / 0x1000) as byte, (0x80 + u / 0x40 % 0x40) as byte, (0x80 + u % 0x40) as byte]
    else
      [(0xF0 + u / 0x4_0000) as byte, (0x80 + u / 0x1000 % 0x40) as byte,
       (0x80 + u / 0x40 % 0x40) as byte, (0x80 + u % 0x40) as byte]
  }

  /** The bytes of a string. */
  function Utf8(s: string): (b: seq<byte>)
    ensures b == [] <==> s == []
  {
    if s == [] then [] else Utf8Char(s[0]) + Utf8(s[1..])
  }

  lemma FindIs(s: string, c: char, i: nat)
    requires i <= |s| && (forall j | 0 <= j < i :: s[j] != c) && (i < |s| ==> s[i] == c)
    ensures Find(s, c) == i
  {}

  // ----- white space -----

  predicate Blank(s: string) {
    forall c | c in s :: IsSpace(c)
  }

  /** Neither begins nor ends with white space. */
  predicate Tight(s: string) {
    s == [] || (!IsSpace(s[0]) && !IsSpace(s[|s| - 1]))
  }

  /** t is s without the white space around it. */
  ghost predicate Strips(s: string, t: string) {
    Tight(t) && exists a, b :: s == a + t + b && Blank(a) && Blank(b)
  }

  lemma {:induction false} TrimStartBlank(a: string, s: string)
    requires Blank(a)
    ensures TrimStart(a + s) == TrimStart(s)
  {
    if a == [] {
      assert a + s == s;
    } else {
      assert a[0] in a;
      assert (a + s)[1..] == a[1..] + s;
      TrimStartBlank(a[1..], s);
    }
  }

  lemma {:induction false} TrimEndBlank(s: string, b: string)
    requires Blank(b)
    ensures TrimEnd(s + b) == TrimEnd(s)
  {
    if b == [] {
      assert s + b == s;
    } else {
      var n := |b| - 1;
      assert b[n] in b;
      assert (s + b)[..|s| + n] == s + b[..n];
      TrimEndBlank(s, b[..n]);
    }
  }

  /** Trimming takes off exactly the white space around a tight text. */
  lemma TrimIs(a: string, t: string, b: string)
    requires Blank(a) && Tight(t) && Blank(b)
    ensures Trim(a + t + b) == t
  {
    assert a + t + b == a + (t + b);
    TrimStartBlank(a, t + b);
    TrimEndBlank(t, b);
    if t == [] {
      assert t + b == b + [];
      TrimStartBlank(b, []);
    } else {
      assert (t + b)[0] == t[0];
    }
  }

  lemma {:induction false} TrimStartRest(s: string) returns (a: string)
    ensures s == a + TrimStart(s) && Blank(a) && (TrimStart(s) == [] || !IsSpace(TrimStart(s)[0]))
  {
    if s != [] && IsSpace(s[0]) {
      a := TrimStartRest(s[1..]);
      a := [s[0]] + a;
    } else {
      a := [];
    }
  }

  lemma {:induction false} TrimEndRest(s: string) returns (b: string)
    ensures s == TrimEnd(s) + b && Blank(b) && (TrimEnd(s) == [] || !IsSpace(TrimEnd(s)[|TrimEnd(s)| - 1]))
  {
    if s != [] && IsSpace(s[|s| - 1]) {
      b := TrimEndRest(s[..|s| - 1]);
      b := b + [s[|s| - 1]];
    } else {
      b := [];
    }
  }

  lemma TrimRest(s: string) returns (a: string, b: string)
    ensures s == a + Trim(s) + b && Blank(a) && Blank(b) && Tight(Trim(s))
  {
    hide TrimStart, TrimEnd;
    a := TrimStartRest(s);
    b := TrimEndRest(TrimStart(s));
  }

  /** `str::trim`, by what it promises. */
  lemma TrimIff(s: string, t: string)
    ensures Trim(s) == t <==> Strips(s, t)
  {
    hide Trim, Tight, Blank;
    var a, b := TrimRest(s);
    if Strips(s, t) {
      var a', b' :| s == a' + t + b' && Blank(a') && Blank(b');
      TrimIs(a', t, b');
    }
  }

  /** White space around a text does not change what trimming leaves. */
  lemma TrimPad(a: string, s: string, b: string)
    requires Blank(a) && Blank(b)
    ensures Trim(a + s + b) == Trim(s)
  {
    hide Trim;
    var x, y := TrimRest(s);
    assert a + s + b == (a + x) + Trim(s) + (y + b);
    TrimIs(a + x, Trim(s), y + b);
  }

  /** What comes before a character that is no white space stays at the end. */
  lemma {:induction false} TrimEndKeeps(p: string, r: string)
    requires p != [] && !IsSpace(p[|p| - 1])
    ensures TrimEnd(p + r) == p + TrimEnd(r)
  {
    hide IsSpace;
    var s := p + r;
    if r == [] {
      assert s == p;
    } else if IsSpace(r[|r| - 1]) {
      assert s[..|s| - 1] == p + r[..|r| - 1];
      TrimEndKeeps(p, r[..|r| - 1]);
    }
  }

  lemma SpaceExamples()
    ensures IsSpace(' ') && IsSpace('\t') && IsSpace('\r') && IsSpace('\n')
    ensures !IsSpace('#') && !IsSpace('=') && !IsSpace('"') && !IsSpace('[') && !IsSpace(']') && !IsSpace(',')
  {}

  // ----- lines -----

  lemma LineEndsAt(line: string, rest: string)
    requires '\n' !in line
    ensures Lines(line + "\n" + rest) == [StripCr(line)] + Lines(rest)
  {
    hide StripCr;
    var s := line + "\n" + rest;
    FindIs(s, '\n', |line|);
    assert s[..|line|] == line && s[|line| + 1..] == rest;
  }

  /** The first line of a text, whatever follows it; a carriage return before the line feed belongs to the line end. */
  lemma LinesCons(line: string, rest: string)
    requires '\n' !in line
    ensures Lines(line + "\n" + rest) == [StripCr(line)] + Lines(rest)
    ensures Lines(line + "\r\n" + rest) == [line] + Lines(rest)
  {
    hide Lines;
    LineEndsAt(line, rest);
    LineEndsAt(line + "\r", rest);
    assert line + "\r\n" + rest == line + "\r" + "\n" + rest;
    assert StripCr(line + "\r") == line;
  }

  /** A last line needs no line end. */
  lemma LinesLast(line: string)
    requires '\n' !in line
    ensures Lines(line) == if line == [] then [] else [line]
  {
    FindIs(line, '\n', |line|);
  }

  // ----- lists -----

  lemma SplitCons(p: string, rest: string, c: char)
    requires c !in p
    ensures Split(p + [c] + rest, c) == [p] + Split(rest, c)
  {
    var s := p + [c] + rest;
    FindIs(s, c, |p|);
    assert s[..|p|] == p && s[|p| + 1..] == rest;
  }

  lemma {:induction false} SplitJoin(parts: seq<string>, c: char)
    requires parts != [] && forall p | p in parts :: c !in p
    ensures Split(Join(parts, c), c) == parts
  {
    assert parts[0] in parts;
    if |parts| == 1 {
      FindIs(parts[0], c, |parts[0]|);
    } else {
      SplitCons(parts[0], Join(parts[1..], c), c);
      SplitJoin(parts[1..], c);
    }
  }

  /** Splitting cuts a text into parts without the separator, which joined give the text back. */
  lemma {:induction false} JoinSplit(s: string, c: char)
    ensures Split(s, c) != [] && Join(Split(s, c), c) == s
    ensures forall p | p in Split(s, c) :: c !in p
  {
    hide Find;
    var i := Find(s, c);
    if i < |s| {
      JoinSplit(s[i + 1..], c);
      assert Split(s, c)[1..] == Split(s[i + 1..], c);
      assert s == s[..i] + [c] + s[i + 1..];
    }
  }

  // ----- bytes -----

  /** The encoding of a character is not the beginning of another's. */
  lemma Utf8CharUnique(c: char, x: seq<byte>, d: char, y: seq<byte>)
    requires Utf8Char(c) + x == Utf8Char(d) + y
    ensures c == d && x == y
  {
    var s := Utf8Char(c) + x;
    SameSize(c, x, d, y);
    assert s[..|Utf8Char(c)|] == Utf8Char(c) && s[..|Utf8Char(c)|] == Utf8Char(d);
    assert s[|Utf8Char(c)|..] == x && s[|Utf8Char(c)|..] == y;
    SameChar(c, d);
  }

  lemma SameSize(c: char, x: seq<byte>, d: char, y: seq<byte>)
    requires Utf8Char(c) + x == Utf8Char(d) + y
    ensures |Utf8Char(c)| == |Utf8Char(d)|
  {
    assert (Utf8Char(c) + x)[0] == Utf8Char(c)[0] && (Utf8Char(d) + y)[0] == Utf8Char(d)[0];
  }

  lemma SameChar(c: char, d: char)
    requires Utf8Char(c) == Utf8Char(d)
    ensures c == d
  {
    hide Utf8Char, DecodeChar;
    Decodes(c);
    Decodes(d);
    assert c as int == d as int;
  }

  /** The number of the character that a sequence of bytes stands for, by section 3 of RFC 3629. */
  function DecodeChar(b: seq<byte>): int
    requires |b| > 0
  {
    if |b| == 1 then b[0] as int
    else if |b| == 2 then (b[0] as int - 0xC0) * 0x40 + (b[1] as int - 0x80)
    else if |b| == 3 then (b[0] as int - 0xE0) * 0x1000 + (b[1] as int - 0x80) * 0x40 + (b[2] as int - 0x80)
    else if |b| == 4 then
      (b[0] as int - 0xF0) * 0x4_0000 + (b[1] as int - 0x80) * 0x1000 + (b[2] as int - 0x80) * 0x40 + (b[3] as int - 0x80)
    else -1
  }

  lemma Decodes(c: char)
    ensures DecodeChar(Utf8Char(c)) == c as int
  {
    var u := c as int;
    assert u / 0x40 / 0x40 == u / 0x1000 && u / 0x1000 / 0x40 == u / 0x4_0000;
  }

  /** Different strings have different bytes. */
  lemma {:induction false} Utf8Injective(s: string, t: string)
    ensures Utf8(s) == Utf8(t) <==> s == t
  {
    hide Utf8Char;
    if s != [] && t != [] && Utf8(s) == Utf8(t) {
      Utf8CharUnique(s[0], Utf8(s[1..]), t[0], Utf8(t[1..]));
      Utf8Injective(s[1..], t[1..]);
      assert s == [s[0]] + s[1..] && t == [t[0]] + t[1..];
    }
  }
}
