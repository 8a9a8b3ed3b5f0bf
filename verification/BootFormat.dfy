/** The text format of boot.toml, written down independently of the parser, and what the parser makes of every text in
    that format. */
module BootFormat {
  import opened Options
  import opened Bytes
  import opened Services
  import opened Text
  import opened BootConfig

  // ----- documents -----

  /** A line that is no section header: a key-value pair, or text without '='. White space and a comment may surround
      either, and the value may be quoted. */
  datatype Line =
    | Pair(indent: string, key: string, gap: string, lead: string, value: string, quoted: bool, tail: string, comment: string)
    | Note(indent: string, text: string, tail: string, comment: string)

  datatype Header = Header(indent: string, name: string, tail: string, comment: string)

  datatype Section = Section(header: Header, lines: seq<Line>)

  function ValueText(value: string, quoted: bool): string {
    if quoted then "\"" + value + "\"" else value
  }

  function Body(l: Line): string {
    match l
    case Pair(_, key, gap, lead, value, quoted, _, _) => key + gap + ("=" + (lead + ValueText(value, quoted)))
    case Note(_, text, _, _) => text
  }

  function Raw(l: Line): string {
    l.indent + Body(l) + l.tail + l.comment
  }

  function RawHeader(h: Header): string {
    h.indent + ("[service." + h.name + "]") + h.tail + h.comment
  }

  predicate IsComment(c: string) {
    c == [] || c[0] == '#'
  }

  predicate Quoted(v: string) {
    |v| >= 2 && v[0] == '"' && v[|v| - 1] == '"'
  }

  /** The line means what its fields say: no comment sign or header inside, no '=' in the key or note, and a value that
      is quoted or looks neither quoted nor padded. */
  predicate IsLine(l: Line) {
    && Blank(l.indent) && Blank(l.tail) && IsComment(l.comment)
    && '\n' !in Raw(l) && '#' !in Body(l) && !(SECTION <= Body(l))
    && match l
       case Pair(_, key, gap, lead, value, quoted, _, _) =>
         && Blank(gap) && Blank(lead) && Tight(key) && '=' !in key
         && (quoted || (Tight(value) && !Quoted(value)))
       case Note(_, text, _, _) => Tight(text) && '=' !in text
  }

  predicate IsHeader(h: Header) {
    && Blank(h.indent) && Blank(h.tail) && IsComment(h.comment)
    && '\n' !in RawHeader(h) && '#' !in h.name && h.name != []
  }

  predicate IsSection(sec: Section) {
    IsHeader(sec.header) && forall l | l in sec.lines :: IsLine(l)
  }

  function Raws(lines: seq<Line>): (r: seq<string>)
    ensures |r| == |lines| && forall i | 0 <= i < |lines| :: r[i] == Raw(lines[i])
  {
    seq(|lines|, i requires 0 <= i < |lines| => Raw(lines[i]))
  }

  function SectionLines(sec: Section): seq<string> {
    [RawHeader(sec.header)] + Raws(sec.lines)
  }

  /** A document: lines before the first section, then the sections. */
  function DocLines(preamble: seq<Line>, sections: seq<Section>): seq<string> {
    if sections == [] then Raws(preamble)
    else DocLines(preamble, sections[..|sections| - 1]) + SectionLines(sections[|sections| - 1])
  }

  /** Lines with their line ends, LF or CRLF; the last line may lack one. */
  function Written(lines: seq<string>, eols: seq<string>): string
    requires |lines| == |eols|
  {
    if lines == [] then "" else lines[0] + eols[0] + Written(lines[1..], eols[1..])
  }

  predicate IsEol(eol: string, last: bool) {
    eol == "\n" || eol == "\r\n" || (last && eol == "")
  }

  predicate AreEols(eols: seq<string>) {
    forall i | 0 <= i < |eols| :: IsEol(eols[i], i == |eols| - 1)
  }

  // ----- what documents mean -----

  /** The value that a section gives a key: the last one. */
  function Last(lines: seq<Line>, key: string): Option<string> {
    if lines == [] then None
    else
      var l := lines[|lines| - 1];
      if l.Pair? && l.key == key then Some(l.value) else Last(lines[..|lines| - 1], key)
  }

  function Meaning(name: string, lines: seq<Line>): ServiceSpec {
    ServiceSpec(
      true,
      CopyBytes(MAX_NAME, name),
      match Last(lines, "binary") { case None => [] case Some(v) => CopyBytes(MAX_BINARY, v) },
      match Last(lines, "depends_on") { case None => [] case Some(v) => KeepDeps(Split(v, ',')) },
      0,
      match Last(lines, "restart_policy") { case None => OneShot case Some(v) => ParsePolicy(v) },
      match Last(lines, "health_probe") { case None => NoProbe case Some(v) => ParseProbe(v) },
      if Last(lines, "launch") == Some("fs_exec") then FsExec else Spawn)
  }

  /** The services of a document: the sections that name a binary. */
  function Kept(sections: seq<Section>): seq<ServiceSpec> {
    if sections == [] then []
    else
      var sec := sections[|sections| - 1];
      var rest, spec := Kept(sections[..|sections| - 1]), Meaning(sec.header.name, sec.lines);
      if spec.binary == [] then rest else rest + [spec]
  }

  function FirstSixteen(specs: seq<ServiceSpec>): seq<ServiceSpec> {
    if |specs| <= 16 then specs else specs[..16]
  }

  // ----- single lines -----

  lemma CleanIs(indent: string, body: string, tail: string, comment: string)
    requires Blank(indent) && Blank(tail) && IsComment(comment) && '#' !in body
    ensures CleanLine(indent + body + tail + comment) == Trim(body)
  {
    hide Trim, IsSpace;
    var code := indent + body + tail;
    var raw := code + comment;
    SpaceExamples();
    assert '#' !in code;
    FindIs(raw, '#', |code|);
    assert raw[..|code|] == code;
    TrimPad(indent, body, tail);
  }

  /** A pair, trimmed, still has its '=' behind the key. */
  lemma PairTrims(key: string, gap: string, rest: string) returns (x: string)
    requires Tight(key) && '=' !in key && Blank(gap)
    ensures Trim(key + gap + ("=" + rest)) == x + "=" + TrimEnd(rest)
    ensures '=' !in x && Trim(x) == key && (if key == [] then x == [] else x == key + gap)
  {
    hide IsSpace;
    SpaceExamples();
    var eq := "=" + rest;
    x := if key == [] then [] else key + gap;
    var y := x + "=";
    assert TrimStart(key + gap + eq) == y + rest by {
      if key == [] {
        assert key + gap + eq == gap + eq;
        TrimStartBlank(gap, eq);
        assert y + rest == eq;
      } else {
        assert key + gap + eq == y + rest;
        assert (y + rest)[0] == key[0];
      }
    }
    TrimEndKeeps(y, rest);
    TrimIs([], key, if key == [] then [] else gap);
    assert [] + key + (if key == [] then [] else gap) == x;
  }

  /** Trimming a value, its white space before and part of that behind it, leaves the value as written. */
  lemma ValueTrims(lead: string, v: string)
    requires Blank(lead) && Tight(v)
    ensures Trim(TrimEnd(lead + v)) == v
  {
    hide Trim, TrimEnd, IsSpace;
    var b := TrimEndRest(lead + v);
    var e := TrimEnd(lead + v);
    assert [] + e + b == lead + v;
    TrimPad([], e, b);
    assert lead + v + [] == lead + v;
    TrimIs(lead, v, []);
  }

  /** A pair is read as its key and value, however it is laid out. */
  lemma PairParses(l: Line)
    requires IsLine(l) && l.Pair?
    ensures CleanLine(Raw(l)) != [] && SectionName(CleanLine(Raw(l))) == None
    ensures ParseKv(CleanLine(Raw(l))) == Some((l.key, l.value))
  {
    hide CleanLine, Trim, TrimEnd, TrimStart, IsSpace, Blank;
    var v := ValueText(l.value, l.quoted);
    var r := l.lead + v;
    CleanIs(l.indent, Body(l), l.tail, l.comment);
    var x := PairTrims(l.key, l.gap, r);
    var line := CleanLine(Raw(l));
    assert line == x + "=" + TrimEnd(r);
    FindIs(line, '=', |x|);
    assert line[..|x|] == x && line[|x| + 1..] == TrimEnd(r);
    SpaceExamples();
    ValueTrims(l.lead, v);
    PairIsNoHeader(l, x);
    assert l.quoted ==> v[1..|v| - 1] == l.value;
  }

  lemma PairIsNoHeader(l: Line, x: string)
    requires l.Pair? && !(SECTION <= Body(l))
    requires if l.key == [] then x == [] else x == l.key + l.gap
    ensures !(SECTION <= x + "=" + TrimEnd(l.lead + ValueText(l.value, l.quoted)))
  {
    hide TrimEnd;
    var r := l.lead + ValueText(l.value, l.quoted);
    var line := x + "=" + TrimEnd(r);
    if l.key != [] {
      var b := TrimEndRest(r);
      assert Body(l) == line + b;
      assert SECTION <= line ==> SECTION <= line + b;
    } else {
      assert line[0] == '=';
    }
  }

  lemma NoteIsNothing(l: Line)
    requires IsLine(l) && l.Note?
    ensures CleanLine(Raw(l)) == l.text && SectionName(l.text) == None && ParseKv(l.text) == None
  {
    hide CleanLine, Trim;
    CleanIs(l.indent, l.text, l.tail, l.comment);
    assert [] + l.text + [] == l.text;
    TrimIs([], l.text, []);
    FindIs(l.text, '=', |l.text|);
  }

  /** Inside a section a pair sets its key and any other line does nothing; before the first section nothing counts. */
  lemma LineFeeds(p: Parser, l: Line)
    requires IsLine(l)
    ensures Feed(p, Raw(l)) == if p.inService && l.Pair? then p.(cur := SetKey(p.cur, l.key, l.value)) else p
  {
    hide SetKey, CleanLine, SectionName, ParseKv, Raw, IsLine;
    if l.Pair? { PairParses(l); } else { NoteIsNothing(l); }
  }

  /** A header closes the service before it and opens the named one. */
  lemma HeaderFeeds(p: Parser, h: Header)
    requires IsHeader(h)
    ensures Feed(p, RawHeader(h)) ==
            Parser(Finish(p), EMPTY_SPEC.(valid := true, name := CopyBytes(MAX_NAME, h.name)), true)
  {
    hide CleanLine, Finish, CopyBytes, IsSpace, ParseKv, Trim;
    var line := SECTION + h.name + "]";
    SpaceExamples();
    CleanIs(h.indent, line, h.tail, h.comment);
    assert [] + line + [] == line;
    TrimIs([], line, []);
    assert SECTION <= line && line[9..|line| - 1] == h.name;
  }

  // ----- sections -----

  lemma MeaningStep(name: string, lines: seq<Line>, l: Line)
    ensures Meaning(name, lines + [l]) ==
            if l.Pair? then SetKey(Meaning(name, lines), l.key, l.value) else Meaning(name, lines)
  {
    hide CopyBytes, KeepDeps, Split, ParsePolicy, ParseProbe, Last;
    LastStep(lines, l, "binary");
    LastStep(lines, l, "depends_on");
    LastStep(lines, l, "restart_policy");
    LastStep(lines, l, "health_probe");
    LastStep(lines, l, "launch");
  }

  lemma LastStep(lines: seq<Line>, l: Line, key: string)
    ensures Last(lines + [l], key) == if l.Pair? && l.key == key then Some(l.value) else Last(lines, key)
  {
    assert (lines + [l])[..|lines|] == lines;
  }

  lemma {:induction false} LinesFeed(p: Parser, name: string, lines: seq<Line>)
    requires p.inService && p.cur == Meaning(name, []) && forall l | l in lines :: IsLine(l)
    ensures FeedAll(p, Raws(lines)) == p.(cur := Meaning(name, lines))
  {
    hide Feed, IsLine, Raw, Meaning, FeedAll;
    if lines == [] {
      FeedNone(p);
    } else {
      var n := |lines| - 1;
      assert lines[n] in lines && forall l | l in lines[..n] :: l in lines;
      LinesFeed(p, name, lines[..n]);
      assert Raws(lines) == Raws(lines[..n]) + [Raw(lines[n])];
      FeedLast(p, Raws(lines[..n]), Raw(lines[n]));
      LineFeeds(FeedAll(p, Raws(lines[..n])), lines[n]);
      MeaningStep(name, lines[..n], lines[n]);
      assert lines == lines[..n] + [lines[n]];
    }
  }

  lemma FeedNone(p: Parser)
    ensures FeedAll(p, []) == p
  {}

  lemma FeedLast(p: Parser, lines: seq<string>, line: string)
    ensures FeedAll(p, lines + [line]) == Feed(FeedAll(p, lines), line)
  {
    hide Feed;
    FeedAllAppend(p, lines, [line]);
    assert FeedAll(FeedAll(p, lines), [line]) == FeedAll(Feed(FeedAll(p, lines), line), []) by {
      assert [line][1..] == [];
    }
  }

  lemma FeedFirst(p: Parser, line: string, rest: seq<string>)
    ensures FeedAll(p, [line] + rest) == FeedAll(Feed(p, line), rest)
  {
    hide Feed;
    assert ([line] + rest)[1..] == rest;
  }

  /** Feeding a section closes the service before it and leaves the section's meaning under construction. */
  lemma SectionFeeds(p: Parser, sec: Section)
    requires IsSection(sec)
    ensures FeedAll(p, SectionLines(sec)) == Parser(Finish(p), Meaning(sec.header.name, sec.lines), true)
  {
    hide Feed, FeedAll, Finish, IsLine, RawHeader, Raws, CopyBytes;
    HeaderFeeds(p, sec.header);
    FeedFirst(p, RawHeader(sec.header), Raws(sec.lines));
    LinesFeed(Feed(p, RawHeader(sec.header)), sec.header.name, sec.lines);
  }

  lemma {:induction false} PreambleIgnored(lines: seq<Line>)
    requires forall l | l in lines :: IsLine(l)
    ensures FeedAll(START, Raws(lines)) == START
  {
    hide Feed, FeedAll, IsLine, Raw;
    if lines == [] {
      FeedNone(START);
    } else {
      var n := |lines| - 1;
      assert lines[n] in lines && forall l | l in lines[..n] :: l in lines;
      PreambleIgnored(lines[..n]);
      assert Raws(lines) == Raws(lines[..n]) + [Raw(lines[n])];
      FeedLast(START, Raws(lines[..n]), Raw(lines[n]));
      LineFeeds(START, lines[n]);
    }
  }

  // ----- documents -----

  lemma {:induction false} SectionsFeed(preamble: seq<Line>, sections: seq<Section>)
    requires (forall l | l in preamble :: IsLine(l)) && forall sec | sec in sections :: IsSection(sec)
    ensures Finish(FeedAll(START, DocLines(preamble, sections))) == FirstSixteen(Kept(sections))
  {
    hide FeedAll, IsLine, IsSection, Meaning, SectionLines;
    if sections == [] {
      PreambleIgnored(preamble);
    } else {
      var n := |sections| - 1;
      var sec := sections[n];
      assert sec in sections && forall x | x in sections[..n] :: x in sections;
      SectionsFeed(preamble, sections[..n]);
      var p := FeedAll(START, DocLines(preamble, sections[..n]));
      FeedAllAppend(START, DocLines(preamble, sections[..n]), SectionLines(sec));
      SectionFeeds(p, sec);
      FinishSection(p, sec);
    }
  }

  lemma FinishSection(p: Parser, sec: Section)
    requires IsSection(sec)
    ensures var spec := Meaning(sec.header.name, sec.lines);
            Finish(Parser(Finish(p), spec, true)) ==
              if spec.binary == [] || |Finish(p)| >= 16 then Finish(p) else Finish(p) + [spec]
  {
    hide Last, Split, KeepDeps, ParsePolicy, ParseProbe, IsLine, RawHeader;
    CopyPrefix(MAX_NAME, sec.header.name);
  }

  /** `copy_bytes` keeps the longest prefix that fits. */
  lemma CopyPrefix(n: nat, s: string)
    ensures CopyBytes(n, s) <= Utf8(s) && |CopyBytes(n, s)| == if |Utf8(s)| <= n then |Utf8(s)| else n
    ensures s != [] && n > 0 ==> CopyBytes(n, s) != []
  {
    hide Utf8Char;
  }

  // ----- the text -----

  lemma CleanCr(line: string)
    ensures CleanLine(StripCr(line)) == CleanLine(line)
  {
    hide Trim, IsSpace;
    if StripCr(line) != line {
      var n := |line| - 1;
      var i := Find(line, '#');
      SpaceExamples();
      if i <= n {
        FindIs(line[..n], '#', i);
        assert line[..n][..i] == line[..i];
      } else {
        FindIs(line[..n], '#', n);
        assert line[..n][..n] == line[..n];
        assert line[..i] == [] + line[..n] + "\r";
        TrimPad([], line[..n], "\r");
      }
    }
  }

  lemma FeedCr(p: Parser, line: string)
    ensures Feed(p, StripCr(line)) == Feed(p, line) && Feed(p, "") == p
  {
    hide CleanLine, StripCr;
    CleanCr(line);
    CleanNothing();
  }

  lemma CleanNothing()
    ensures CleanLine("") == ""
  {}

  /** Line ends, LF or CRLF or none at the very end, make no difference. */
  lemma {:induction false} TextFeeds(p: Parser, lines: seq<string>, eols: seq<string>)
    requires |lines| == |eols| && AreEols(eols) && forall line | line in lines :: '\n' !in line
    ensures FeedAll(p, Lines(Written(lines, eols))) == FeedAll(p, lines)
    decreases |lines|
  {
    hide Feed, FeedAll, Lines, StripCr;
    if lines == [] {
      LinesLast("");
    } else {
      var line, rest := lines[0], Written(lines[1..], eols[1..]);
      assert line in lines && IsEol(eols[0], |eols| == 1);
      RestEols(eols);
      FeedCr(p, line);
      assert lines == [line] + lines[1..];
      FeedFirst(p, line, lines[1..]);
      if eols[0] == "" {
        assert lines == [line] && Written(lines, eols) == line;
        assert [line] + [] == [line];
        LinesLast(line);
        FeedNone(Feed(p, line));
        FeedNone(p);
      } else {
        LinesCons(line, rest);
        FeedFirst(p, line, Lines(rest));
        FeedFirst(p, StripCr(line), Lines(rest));
        TextFeeds(Feed(p, line), lines[1..], eols[1..]);
      }
    }
  }

  lemma RestEols(eols: seq<string>)
    requires eols != [] && AreEols(eols)
    ensures AreEols(eols[1..])
  {
    forall i | 0 <= i < |eols[1..]|
      ensures IsEol(eols[1..][i], i == |eols[1..]| - 1)
    {
      assert IsEol(eols[i + 1], i + 1 == |eols| - 1);
    }
  }

  lemma {:induction false} DocLinesWhole(preamble: seq<Line>, sections: seq<Section>)
    requires (forall l | l in preamble :: IsLine(l)) && forall sec | sec in sections :: IsSection(sec)
    ensures forall line | line in DocLines(preamble, sections) :: '\n' !in line
  {
    if sections == [] {
      RawsWhole(preamble);
    } else {
      hide Raw, RawHeader, Raws, Body;
      var sec := sections[|sections| - 1];
      assert sec in sections;
      DocLinesWhole(preamble, sections[..|sections| - 1]);
      RawsWhole(sec.lines);
    }
  }

  lemma RawsWhole(lines: seq<Line>)
    requires forall l | l in lines :: IsLine(l)
    ensures forall line | line in Raws(lines) :: '\n' !in line
  {
    hide Raw, Body;
    forall line | line in Raws(lines)
      ensures '\n' !in line
    {
      var i :| 0 <= i < |lines| && line == Raw(lines[i]);
      assert lines[i] in lines;
    }
  }

  /** What the parser makes of any document, however it is laid out: the first sixteen sections that name a binary, each
      with the last value of every key. */
  lemma ParsedIs(preamble: seq<Line>, sections: seq<Section>, eols: seq<string>)
    requires (forall l | l in preamble :: IsLine(l)) && forall sec | sec in sections :: IsSection(sec)
    requires |eols| == |DocLines(preamble, sections)| && AreEols(eols)
    ensures Parsed(Written(DocLines(preamble, sections), eols)) == FirstSixteen(Kept(sections))
  {
    hide IsLine, IsSection, FeedAll, Lines, Finish, Kept, DocLines, Written, FirstSixteen;
    DocLinesWhole(preamble, sections);
    TextFeeds(START, DocLines(preamble, sections), eols);
    SectionsFeed(preamble, sections);
  }

  /** A section that names no binary yields no service and leaves the others alone. */
  lemma {:induction false} NoBinaryNoService(before: seq<Section>, sec: Section, after: seq<Section>)
    requires Last(sec.lines, "binary") == None || Last(sec.lines, "binary") == Some("")
    ensures Kept(before + [sec] + after) == Kept(before + after)
    decreases |after|
  {
    hide Last, Meaning;
    var all, less := before + [sec] + after, before + after;
    if after == [] {
      assert all[..|all| - 1] == before && less == before;
      NoBinary(sec);
    } else {
      var n := |after| - 1;
      assert all[..|all| - 1] == before + [sec] + after[..n] && less[..|less| - 1] == before + after[..n];
      NoBinaryNoService(before, sec, after[..n]);
    }
  }

  lemma NoBinary(sec: Section)
    requires Last(sec.lines, "binary") == None || Last(sec.lines, "binary") == Some("")
    ensures Meaning(sec.header.name, sec.lines).binary == []
  {
    hide Last, KeepDeps, Split, ParsePolicy, ParseProbe;
  }

  // ----- dependency lists -----

  /** names are the items that are not blank, each without the white space around it. */
  ghost predicate StripsTo(items: seq<string>, names: seq<string>) {
    if items == [] then names == []
    else
      var n, item := |items| - 1, items[|items| - 1];
      if Blank(item) then StripsTo(items[..n], names)
      else names != [] && Strips(item, names[|names| - 1]) && StripsTo(items[..n], names[..|names| - 1])
  }

  /** A value text lists names: comma-separated, blank items skipped, white space around names ignored. */
  ghost predicate Lists(v: string, names: seq<string>) {
    exists items :: items != [] && v == Join(items, ',') && (forall item | item in items :: ',' !in item) && StripsTo(items, names)
  }

  function FirstFour(names: seq<string>): (r: seq<seq<byte>>)
    ensures |r| == if |names| <= 4 then |names| else 4
    ensures forall i | 0 <= i < |r| :: r[i] == CopyBytes(MAX_NAME, names[i])
  {
    seq(if |names| <= 4 then |names| else 4, i requires 0 <= i < |names| => CopyBytes(MAX_NAME, names[i]))
  }

  lemma BlankTrims(s: string)
    ensures Blank(s) <==> Trim(s) == []
  {
    hide Trim, IsSpace;
    var a, b := TrimRest(s);
    if Blank(s) {
      assert [] + s + [] == s;
      assert s + [] + [] == s;
      TrimIs(s, [], []);
    }
  }

  lemma {:induction false} ItemsKept(items: seq<string>, names: seq<string>)
    requires StripsTo(items, names)
    ensures KeepDeps(items) == FirstFour(names)
  {
    hide Trim, Strips, CopyBytes, Blank;
    if items != [] {
      var n := |items| - 1;
      var item := items[n];
      BlankTrims(item);
      if Blank(item) {
        ItemsKept(items[..n], names);
      } else {
        var m := |names| - 1;
        ItemsKept(items[..n], names[..m]);
        TrimIff(item, names[m]);
        assert names == names[..m] + [names[m]];
        FirstFourStep(names[..m], names[m]);
      }
    }
  }

  lemma FirstFourStep(names: seq<string>, name: string)
    ensures FirstFour(names + [name]) == if |names| >= 4 then FirstFour(names) else FirstFour(names) + [CopyBytes(MAX_NAME, name)]
  {
    hide CopyBytes;
  }

  /** `parse_dep_list`: of the listed names the first four count. */
  lemma DependencyNames(v: string, names: seq<string>)
    requires Lists(v, names)
    ensures KeepDeps(Split(v, ',')) == FirstFour(names)
  {
    hide KeepDeps, StripsTo, Split, Join;
    var items :| items != [] && v == Join(items, ',') && (forall item | item in items :: ',' !in item) && StripsTo(items, names);
    SplitJoin(items, ',');
    ItemsKept(items, names);
  }

  /** Every value text lists some names. */
  lemma EveryTextLists(v: string) returns (names: seq<string>)
    ensures Lists(v, names)
  {
    hide Split, Join, StripsTo;
    JoinSplit(v, ',');
    names := StripAll(Split(v, ','));
  }

  lemma {:induction false} StripAll(items: seq<string>) returns (names: seq<string>)
    ensures StripsTo(items, names)
  {
    hide Blank, Trim, Strips;
    if items == [] {
      names := [];
    } else {
      var n := |items| - 1;
      names := StripAll(items[..n]);
      if !Blank(items[n]) {
        TrimIff(items[n], Trim(items[n]));
        names := names + [Trim(items[n])];
        assert names[..|names| - 1] + [names[|names| - 1]] == names;
      }
    }
  }
}
