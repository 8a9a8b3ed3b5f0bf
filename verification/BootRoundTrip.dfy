/** Services written down in any layout that boot.toml allows are parsed back, with masks that denote the named graph. */
module BootRoundTrip {
  import opened Options
  import opened Bytes
  import opened Services
  import opened Text
  import opened BootConfig
  import opened BootFormat
  import opened Masks

  // ----- services -----

  /** A service as its administrator thinks of it. */
  datatype Service = Service(
    name: string, binary: string, deps: seq<string>,
    policy: RestartPolicy, probe: HealthProbe, launch: LaunchMode)

  /** The section describes the service. One-shot, no probe and spawning are the defaults, whether the key is missing or
      its value is none of those known. */
  ghost predicate Describes(sec: Section, s: Service) {
    && sec.header.name == s.name && Last(sec.lines, "binary") == Some(s.binary)
    && (match Last(sec.lines, "depends_on") case None => s.deps == [] case Some(v) => Lists(v, s.deps))
    && (match Last(sec.lines, "restart_policy") case None => s.policy == OneShot
        case Some(v) => (v == "always" <==> s.policy == Always) && (v == "on-failure" <==> s.policy == OnFailure))
    && (match Last(sec.lines, "health_probe") case None => s.probe == NoProbe
        case Some(v) => (v == "fs_ping" <==> s.probe == FsPing) && (v == "blk_ping" <==> s.probe == BlkPing))
    && (Last(sec.lines, "launch") == Some("fs_exec") <==> s.launch == FsExec)
  }

  /** Names fit their buffers. */
  predicate Fits(s: Service) {
    && s.name != [] && |Utf8(s.name)| <= 32 && s.binary != [] && |Utf8(s.binary)| <= 128
    && |s.deps| <= 4 && forall d | d in s.deps :: |Utf8(d)| <= 32
  }

  function SpecOf(s: Service): ServiceSpec {
    ServiceSpec(true, Utf8(s.name), Utf8(s.binary), seq(|s.deps|, i requires 0 <= i < |s.deps| => Utf8(s.deps[i])),
                0, s.policy, s.probe, s.launch)
  }

  lemma ChoicesRead(v: string)
    ensures match ParsePolicy(v) case Always => v == "always" case OnFailure => v == "on-failure"
                                 case OneShot => v != "always" && v != "on-failure"
    ensures match ParseProbe(v) case FsPing => v == "fs_ping" case BlkPing => v == "blk_ping"
                                case NoProbe => v != "fs_ping" && v != "blk_ping"
    ensures "always" != "on-failure" && "fs_ping" != "blk_ping"
  {}

  lemma CopyAll(n: nat, s: string)
    requires |Utf8(s)| <= n
    ensures CopyBytes(n, s) == Utf8(s)
  {
    hide Utf8;
  }

  /** Described services mean themselves. */
  lemma DescribedMeans(sec: Section, s: Service)
    requires Describes(sec, s) && Fits(s)
    ensures Meaning(sec.header.name, sec.lines) == SpecOf(s)
  {
    hide Utf8, CopyBytes, KeepDeps, Split, ParsePolicy, ParseProbe, Last, Lists;
    CopyAll(MAX_NAME, s.name);
    CopyAll(MAX_BINARY, s.binary);
    if Last(sec.lines, "restart_policy").Some? { ChoicesRead(Last(sec.lines, "restart_policy").value); }
    if Last(sec.lines, "health_probe").Some? { ChoicesRead(Last(sec.lines, "health_probe").value); }
    forall d | d in s.deps ensures CopyBytes(MAX_NAME, d) == Utf8(d) { CopyAll(MAX_NAME, d); }
    assert FirstFour(s.deps) == SpecOf(s).depNames by {
      forall i | 0 <= i < |s.deps| ensures FirstFour(s.deps)[i] == Utf8(s.deps[i]) { assert s.deps[i] in s.deps; }
    }
    if Last(sec.lines, "depends_on").Some? { DependencyNames(Last(sec.lines, "depends_on").value, s.deps); }
  }

  function Specs(services: seq<Service>): (specs: seq<ServiceSpec>)
    ensures |specs| == |services| && forall i | 0 <= i < |services| :: specs[i] == SpecOf(services[i])
  {
    seq(|services|, i requires 0 <= i < |services| => SpecOf(services[i]))
  }

  lemma {:induction false} KeptAre(sections: seq<Section>, services: seq<Service>)
    requires |sections| == |services|
    requires forall i | 0 <= i < |services| :: Describes(sections[i], services[i]) && Fits(services[i])
    ensures Kept(sections) == Specs(services)
  {
    hide Describes, Fits, Meaning, SpecOf;
    if sections != [] {
      var n := |sections| - 1;
      KeptAre(sections[..n], services[..n]);
      DescribedMeans(sections[n], services[n]);
      HasBinary(services[n]);
      assert Specs(services) == Specs(services[..n]) + [SpecOf(services[n])];
    }
  }

  lemma HasBinary(s: Service)
    requires Fits(s)
    ensures SpecOf(s).binary != []
  {
    hide Utf8Char;
  }

  /** Service j is the first that carries one of the names. */
  ghost predicate FirstNamed(services: seq<Service>, names: seq<string>, j: nat) {
    && j < |services| && services[j].name in names
    && forall k | 0 <= k < j :: services[k].name != services[j].name
  }

  /** The round trip: any text that describes up to sixteen services, in whatever layout, is parsed to exactly these
      services in order, and each mask denotes the first services named by the dependencies. */
  lemma RoundTrip(services: seq<Service>, preamble: seq<Line>, sections: seq<Section>, eols: seq<string>)
    requires (forall l | l in preamble :: IsLine(l)) && forall sec | sec in sections :: IsSection(sec)
    requires |eols| == |DocLines(preamble, sections)| && AreEols(eols)
    requires |sections| == |services| <= 16
    requires forall i | 0 <= i < |services| :: Describes(sections[i], services[i]) && Fits(services[i])
    ensures var specs := Parsed(Written(DocLines(preamble, sections), eols));
            && specs == Specs(services)
            && forall i, j: nat | 0 <= i < |services| ::
                 j in Bits(Resolved(specs)[i].depMask) <==> FirstNamed(services, services[i].deps, j)
  {
    hide IsLine, IsSection, Describes, Fits, Parsed, Bits, DocLines, Written, FirstNamed, MaskOf, Kept, SpecOf;
    ParsedIs(preamble, sections, eols);
    KeptAre(sections, services);
    forall i, j: nat | 0 <= i < |services|
      ensures j in Bits(Resolved(Specs(services))[i].depMask) <==> FirstNamed(services, services[i].deps, j)
    {
      MaskByName(services, i, j);
    }
  }

  lemma MaskByName(services: seq<Service>, i: nat, j: nat)
    requires i < |services|
    ensures j in Bits(Resolved(Specs(services))[i].depMask) <==> FirstNamed(services, services[i].deps, j)
  {
    hide Bits, MaskOf, LowestIndex, Utf8;
    var specs, deps := Specs(services), services[i].deps;
    MaskDenotes(specs, specs[i].depNames);
    if FirstNamed(services, deps, j) {
      var k :| 0 <= k < |deps| && deps[k] == services[j].name;
      assert specs[i].depNames[k] == Utf8(services[j].name);
      forall m | 0 <= m < j ensures specs[m].name != specs[j].name { Utf8Injective(services[m].name, services[j].name); }
      LowestIs(specs, specs[j].name, j);
    }
    if j in Bits(Resolved(specs)[i].depMask) {
      var d :| d in specs[i].depNames && LowestIndex(specs, d) == j;
      var k :| 0 <= k < |deps| && d == Utf8(deps[k]);
      Utf8Injective(services[j].name, deps[k]);
      forall m | 0 <= m < j ensures services[m].name != services[j].name { Utf8Injective(services[m].name, services[j].name); }
    }
  }

  // ----- the plain layout of boot.toml -----

  predicate OneLine(s: string) {
    '\n' !in s && '#' !in s
  }

  /** Services that can be written down at all: no line breaks or comment signs inside, and dependency names that survive
      being listed. */
  predicate Printable(s: Service) {
    && Fits(s) && OneLine(s.name) && OneLine(s.binary)
    && forall d | d in s.deps :: d != [] && OneLine(d) && ',' !in d && Tight(d)
  }

  function PolicyText(p: RestartPolicy): string {
    match p case Always => "always" case OnFailure => "on-failure" case OneShot => "one-shot"
  }

  function ProbeText(p: HealthProbe): string {
    match p case NoProbe => "none" case FsPing => "fs_ping" case BlkPing => "blk_ping"
  }

  function Plain(key: string, value: string): Line {
    Pair("", key, " ", " ", value, true, "", "")
  }

  /** One service as boot.toml writes it down. */
  function PlainSection(s: Service): Section {
    Section(Header("", s.name, "", ""),
            [Plain("binary", s.binary), Plain("depends_on", Join(s.deps, ',')),
             Plain("restart_policy", PolicyText(s.policy)), Plain("health_probe", ProbeText(s.probe)),
             Plain("launch", if s.launch == FsExec then "fs_exec" else "spawn"), Note("", "", "", "")])
  }

  predicate PlainKey(k: string) {
    k != [] && '=' !in k && OneLine(k) && k[0] != '[' && Tight(k)
  }

  lemma Keys()
    ensures PlainKey("binary") && PlainKey("depends_on") && PlainKey("restart_policy")
    ensures PlainKey("health_probe") && PlainKey("launch")
  {
    assert PlainKey("binary");
    assert PlainKey("depends_on");
    assert PlainKey("restart_policy");
    assert PlainKey("health_probe");
    assert PlainKey("launch");
  }

  lemma PlainIsLine(key: string, value: string)
    requires PlainKey(key) && OneLine(value)
    ensures IsLine(Plain(key, value))
  {
    var l := Plain(key, value);
    assert Body(l)[0] == key[0];
  }

  lemma TextsAreOneLine(s: Service)
    ensures OneLine(PolicyText(s.policy)) && OneLine(ProbeText(s.probe)) && OneLine("fs_exec") && OneLine("spawn")
  {}

  lemma {:induction false} JoinOneLine(parts: seq<string>)
    requires forall d | d in parts :: OneLine(d)
    ensures OneLine(Join(parts, ','))
  {
    if |parts| > 0 {
      assert parts[0] in parts;
      JoinOneLine(parts[1..]);
    }
  }

  lemma PlainIsSection(s: Service)
    requires Printable(s)
    ensures IsSection(PlainSection(s))
  {
    hide IsLine, PolicyText, ProbeText, Join, OneLine, PlainKey, Plain;
    Keys();
    TextsAreOneLine(s);
    JoinOneLine(s.deps);
    PlainIsLine("binary", s.binary);
    PlainIsLine("depends_on", Join(s.deps, ','));
    PlainIsLine("restart_policy", PolicyText(s.policy));
    PlainIsLine("health_probe", ProbeText(s.probe));
    PlainIsLine("launch", if s.launch == FsExec then "fs_exec" else "spawn");
    BlankIsLine();
    PlainHeader(s.name);
  }

  lemma BlankIsLine()
    ensures IsLine(Note("", "", "", ""))
  {}

  lemma PlainHeader(name: string)
    requires name != [] && OneLine(name)
    ensures IsHeader(Header("", name, "", ""))
  {}

  lemma {:induction false} TightListsItself(names: seq<string>)
    requires forall d | d in names :: d != [] && Tight(d)
    ensures StripsTo(names, names)
  {
    hide IsSpace;
    if names != [] {
      var n := |names| - 1;
      var d := names[n];
      assert d in names && d[0] in d;
      assert d == [] + d + [] && Blank([]);
      assert forall x | x in names[..n] :: x in names;
      TightListsItself(names[..n]);
    }
  }

  lemma JoinLists(names: seq<string>)
    requires forall d | d in names :: d != [] && Tight(d) && ',' !in d
    ensures Lists(Join(names, ','), names)
  {
    if names == [] {
      assert Blank("") && [""][..0] == [] && StripsTo([], []);
      assert StripsTo([""], []) && Join([""], ',') == "" && ',' !in "";
    } else {
      TightListsItself(names);
    }
  }

  lemma PlainDescribes(s: Service)
    requires Printable(s)
    ensures Describes(PlainSection(s), s)
  {
    hide Join, Lists, Last, Plain;
    JoinLists(s.deps);
    PlainLast(s);
  }

  lemma PlainLast(s: Service)
    ensures var lines := PlainSection(s).lines;
            && Last(lines, "binary") == Some(s.binary) && Last(lines, "depends_on") == Some(Join(s.deps, ','))
            && Last(lines, "restart_policy") == Some(PolicyText(s.policy))
            && Last(lines, "health_probe") == Some(ProbeText(s.probe))
            && Last(lines, "launch") == Some(if s.launch == FsExec then "fs_exec" else "spawn")
  {
    hide PolicyText, ProbeText, Join, Last;
    var lines := PlainSection(s).lines;
    LastUnfolds(lines, "binary");
    LastUnfolds(lines, "depends_on");
    LastUnfolds(lines, "restart_policy");
    LastUnfolds(lines, "health_probe");
    LastUnfolds(lines, "launch");
  }

  lemma LastUnfolds(lines: seq<Line>, key: string)
    requires |lines| == 6 && lines[5].Note? && forall i | 0 <= i < 5 :: lines[i].Pair?
    ensures Last(lines, key) == if lines[4].key == key then Some(lines[4].value)
                                else if lines[3].key == key then Some(lines[3].value)
                                else if lines[2].key == key then Some(lines[2].value)
                                else if lines[1].key == key then Some(lines[1].value)
                                else if lines[0].key == key then Some(lines[0].value) else None
  {
    hide Last;
    assert lines == lines[..5] + [lines[5]];
    LastStep(lines[..5], lines[5], key);
    assert lines[..5] == lines[..4] + [lines[4]];
    LastStep(lines[..4], lines[4], key);
    assert lines[..4] == lines[..3] + [lines[3]];
    LastStep(lines[..3], lines[3], key);
    assert lines[..3] == lines[..2] + [lines[2]];
    LastStep(lines[..2], lines[2], key);
    assert lines[..2] == lines[..1] + [lines[1]];
    LastStep(lines[..1], lines[1], key);
    assert lines[..1] == [] + [lines[0]];
    LastStep([], lines[0], key);
    LastOfNone(key);
  }

  lemma LastOfNone(key: string)
    ensures Last([], key) == None
  {}

  function PlainSections(services: seq<Service>): (secs: seq<Section>)
    ensures |secs| == |services| && forall i | 0 <= i < |services| :: secs[i] == PlainSection(services[i])
  {
    seq(|services|, i requires 0 <= i < |services| => PlainSection(services[i]))
  }

  /** Every printable service can be written down: printing services in the layout of boot.toml and parsing the text
      gives them back. */
  lemma PrintedComeBack(services: seq<Service>)
    requires |services| <= 16 && forall s | s in services :: Printable(s)
    ensures var lines := DocLines([], PlainSections(services));
            Parsed(Written(lines, seq(|lines|, _ => "\n"))) == Specs(services)
  {
    hide Parsed, DocLines, Written, PlainSection, IsSection, Describes, Bits, Resolved, SpecOf, Raw;
    var secs := PlainSections(services);
    var eols := seq(|DocLines([], secs)|, _ => "\n");
    forall i | 0 <= i < |services|
      ensures IsSection(secs[i]) && Describes(secs[i], services[i]) && Fits(services[i])
    {
      assert services[i] in services;
      PlainIsSection(services[i]);
      PlainDescribes(services[i]);
    }
    assert AreEols(eols);
    RoundTrip(services, [], secs, eols);
  }
}
