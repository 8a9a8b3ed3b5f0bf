/** The boot graph parser of `apps/init`, and the resolution of dependency names to bit masks. */
module BootConfig {
  import opened Options
  import opened Bytes
  import opened Services
  import opened Masks
  import opened Text

  // ----- lines -----

  function CleanLine(raw: string): string {
    Trim(raw[..Find(raw, '#')])
  }

  function ParseKv(line: string): Option<(string, string)> {
    var i := Find(line, '=');
    if i == |line| then None
    else
      var v := Trim(line[i + 1..]);
      Some((Trim(line[..i]),
            if |v| >= 2 && v[0] == '"' && v[|v| - 1] == '"' then v[1..|v| - 1] else v))
  }

  const SECTION := "[service."

  function SectionName(line: string): Option<string> {
    if !(SECTION <= line) || line[|line| - 1] != ']' then None
    else
      var name := line[9..|line| - 1];
      if name == [] then None else Some(name)
  }

  /** `copy_bytes` into a buffer of n bytes. */
  function CopyBytes(n: nat, s: string): (b: seq<byte>)
    ensures |b| <= n
  {
    var u := Utf8(s);
    if |u| <= n then u else u[..n]
  }

  /** The parts of a dependency list that are kept: trimmed, not empty, at most four. */
  function KeepDeps(parts: seq<string>): (deps: seq<seq<byte>>)
    ensures |deps| <= MAX_DEPS
  {
    if parts == [] then []
    else
      var rest, dep := KeepDeps(parts[..|parts| - 1]), Trim(parts[|parts| - 1]);
      if dep == [] || |rest| >= MAX_DEPS then rest else rest + [CopyBytes(MAX_NAME, dep)]
  }

  function ParsePolicy(v: string): RestartPolicy {
    if v == "always" then Always else if v == "on-failure" then OnFailure else OneShot
  }

  function ParseProbe(v: string): HealthProbe {
    if v == "fs_ping" then FsPing else if v == "blk_ping" then BlkPing else NoProbe
  }

  function SetKey(cur: ServiceSpec, k: string, v: string): ServiceSpec {
    if k == "binary" then cur.(binary := CopyBytes(MAX_BINARY, v))
    else if k == "depends_on" then cur.(depNames := KeepDeps(Split(v, ',')))
    else if k == "restart_policy" then cur.(policy := ParsePolicy(v))
    else if k == "health_probe" then cur.(probe := ParseProbe(v))
    else if k == "launch" then cur.(launch := if v == "fs_exec" then FsExec else Spawn)
    else cur
  }

  // ----- the parser's state machine -----

  datatype Parser = Parser(specs: seq<ServiceSpec>, cur: ServiceSpec, inService: bool)

  const START := Parser([], EMPTY_SPEC, false)

  function Finish(p: Parser): seq<ServiceSpec> {
    if !p.inService || !p.cur.valid || p.cur.name == [] || p.cur.binary == [] || |p.specs| >= MAX_SERVICES then p.specs
    else p.specs + [p.cur]
  }

  function Feed(p: Parser, raw: string): Parser {
    var line := CleanLine(raw);
    if line == [] then p
    else
      match SectionName(line)
      case Some(name) =>
        Parser(Finish(p), EMPTY_SPEC.(valid := true, name := CopyBytes(MAX_NAME, name)), true)
      case None =>
        if !p.inService then p
        else
          match ParseKv(line)
          case None => p
          case Some((k, v)) => p.(cur := SetKey(p.cur, k, v))
  }

  function FeedAll(p: Parser, lines: seq<string>): Parser
    decreases |lines|
  {
    if lines == [] then p else FeedAll(Feed(p, lines[0]), lines[1..])
  }

  /** The specs found in a configuration, before dependency names are resolved. */
  function Parsed(config: string): seq<ServiceSpec> {
    Finish(FeedAll(START, Lines(config)))
  }

  /** The table never overflows, whatever the text. */
  lemma ParsedBounded(config: string)
    ensures |Parsed(config)| <= MAX_SERVICES
  {
    hide Feed, Lines;
    FeedAllBounded(START, Lines(config));
  }

  lemma {:induction false} FeedAllBounded(p: Parser, lines: seq<string>)
    requires |p.specs| <= MAX_SERVICES
    ensures |FeedAll(p, lines).specs| <= MAX_SERVICES
    decreases |lines|
  {
    hide CleanLine, SectionName, ParseKv, SetKey, CopyBytes;
    if lines != [] { FeedAllBounded(Feed(p, lines[0]), lines[1..]); }
  }

  lemma {:induction false} FeedAllAppend(p: Parser, a: seq<string>, b: seq<string>)
    ensures FeedAll(p, a + b) == FeedAll(FeedAll(p, a), b)
    decreases |a|
  {
    hide Feed;
    if a == [] {
      assert a + b == b;
    } else {
      assert (a + b)[1..] == a[1..] + b;
      FeedAllAppend(Feed(p, a[0]), a[1..], b);
    }
  }

  // ----- resolving names -----

  /** Lowest index of a service with this name, or the number of services. */
  function LowestIndex(specs: seq<ServiceSpec>, name: seq<byte>): (j: nat)
    ensures j <= |specs| && (forall k | 0 <= k < j :: specs[k].name != name) && (j < |specs| ==> specs[j].name == name)
  {
    if specs == [] || specs[0].name == name then 0 else 1 + LowestIndex(specs[1..], name)
  }

  function MaskOf(specs: seq<ServiceSpec>, deps: seq<seq<byte>>): nat {
    if deps == [] then 0
    else
      var rest, j := MaskOf(specs, deps[..|deps| - 1]), LowestIndex(specs, deps[|deps| - 1]);
      if j < |specs| then Or(rest, Pow2(j)) else rest
  }

  /** The mask denotes exactly the lowest-indexed services that carry one of the names; unknown names add nothing. */
  lemma {:induction false} MaskDenotes(specs: seq<ServiceSpec>, deps: seq<seq<byte>>)
    ensures MaskOf(specs, deps) < Pow2(|specs|)
    ensures forall j: nat :: j in Bits(MaskOf(specs, deps)) <==> j < |specs| && exists d | d in deps :: LowestIndex(specs, d) == j
  {
    hide Bits, Or, Bit, Pow2, LowestIndex;
    if deps == [] {
      EmptyMask(0);
      Positive(|specs|);
    } else {
      var n := |deps| - 1;
      var rest, j := MaskOf(specs, deps[..n]), LowestIndex(specs, deps[n]);
      MaskDenotes(specs, deps[..n]);
      assert forall d :: d in deps <==> d in deps[..n] || d == deps[n];
      if j < |specs| { SetBit(|specs|, rest, j); }
    }
  }

  lemma Positive(n: nat)
    ensures 0 < Pow2(n)
  {}

  function Resolved(specs: seq<ServiceSpec>): (r: seq<ServiceSpec>)
    ensures |r| == |specs|
    ensures forall i | 0 <= i < |specs| :: r[i] == specs[i].(depMask := MaskOf(specs, specs[i].depNames))
  {
    seq(|specs|, i requires 0 <= i < |specs| => specs[i].(depMask := MaskOf(specs, specs[i].depNames)))
  }

  // ----- init's code -----

  /** The inner search loop of `resolve_dep_mask`. */
  method FindService(specs: array<ServiceSpec>, count: nat, name: seq<byte>) returns (j: nat)
    requires count <= specs.Length
    ensures j == LowestIndex(specs[..count], name)
  {
    j := 0;
    while j < count
      invariant 0 <= j <= count && forall k | 0 <= k < j :: specs[k].name != name
    {
      if specs[j].name == name {
        break;
      }
      j := j + 1;
    }
    LowestIs(specs[..count], name, j);
  }

  lemma LowestIs(specs: seq<ServiceSpec>, name: seq<byte>, j: nat)
    requires j <= |specs| && (forall k | 0 <= k < j :: specs[k].name != name) && (j < |specs| ==> specs[j].name == name)
    ensures LowestIndex(specs, name) == j
  {}

  /** The middle loop of `resolve_dep_mask`, over the dependency names of one service. */
  method MaskFor(specs: array<ServiceSpec>, count: nat, deps: seq<seq<byte>>) returns (mask: nat)
    requires count <= specs.Length
    ensures mask == MaskOf(specs[..count], deps)
  {
    hide MaskOf, LowestIndex, Or, Pow2;
    mask := 0;
    var di := 0;
    MaskSteps(specs[..count], deps, 0);
    while di < |deps|
      invariant 0 <= di <= |deps| && mask == MaskOf(specs[..count], deps[..di])
    {
      MaskSteps(specs[..count], deps, di);
      var j := FindService(specs, count, deps[di]);
      if j < count {
        mask := Or(mask, Pow2(j));
      }
      di := di + 1;
    }
    assert deps[..di] == deps;
  }

  /** `resolve_dep_mask`: masks change, nothing else does. */
  method ResolveDepMask(specs: array<ServiceSpec>, count: nat)
    requires count <= specs.Length
    modifies specs
    ensures specs[..count] == Resolved(old(specs[..count]))
    ensures forall i | count <= i < specs.Length :: specs[i] == old(specs[i])
  {
    hide MaskOf;
    ghost var before := specs[..count];
    var i := 0;
    while i < count
      invariant 0 <= i <= count
      invariant forall k | 0 <= k < i :: specs[k] == before[k].(depMask := MaskOf(before, before[k].depNames))
      invariant forall k | i <= k < count :: specs[k] == before[k]
      invariant forall k | count <= k < specs.Length :: specs[k] == old(specs[k])
    {
      SameNames(before, specs[..count], specs[i].depNames);
      var mask := MaskFor(specs, count, specs[i].depNames);
      specs[i] := specs[i].(depMask := mask);
      i := i + 1;
    }
    assert specs[..count] == Resolved(before);
  }

  /** Masks depend on the names in the table only. */
  lemma {:induction false} SameNames(a: seq<ServiceSpec>, b: seq<ServiceSpec>, deps: seq<seq<byte>>)
    requires |a| == |b| && forall k | 0 <= k < |a| :: a[k].name == b[k].name
    ensures MaskOf(a, deps) == MaskOf(b, deps)
  {
    if deps != [] {
      var d := deps[|deps| - 1];
      LowestIs(b, d, LowestIndex(a, d));
      SameNames(a, b, deps[..|deps| - 1]);
    }
  }

  lemma MaskSteps(specs: seq<ServiceSpec>, deps: seq<seq<byte>>, di: nat)
    requires di <= |deps|
    ensures MaskOf(specs, deps[..0]) == 0
    ensures di < |deps| ==>
            var j := LowestIndex(specs, deps[di]);
            MaskOf(specs, deps[..di + 1]) ==
              if j < |specs| then Or(MaskOf(specs, deps[..di]), Pow2(j)) else MaskOf(specs, deps[..di])
  {
    if di < |deps| { assert deps[..di + 1][..di] == deps[..di]; }
  }

  /** `finish_spec`. */
  method FinishSpec(out: array<ServiceSpec>, count: nat, cur: ServiceSpec) returns (count': nat)
    requires count <= out.Length == MAX_SERVICES
    modifies out
    ensures count <= count' <= MAX_SERVICES
    ensures out[..count'] == Finish(Parser(old(out[..count]), cur, true))
    ensures forall i | count' <= i < MAX_SERVICES :: out[i] == old(out[i])
  {
    if !cur.valid || cur.name == [] || cur.binary == [] || count >= MAX_SERVICES {
      return count;
    }
    out[count] := cur;
    return count + 1;
  }

  /** `parse_boot_graph`. */
  method ParseBootGraph(config: string, out: array<ServiceSpec>) returns (count: nat)
    requires out.Length == MAX_SERVICES
    modifies out
    ensures count <= MAX_SERVICES && out[..count] == Resolved(Parsed(config))
    ensures forall i | count <= i < MAX_SERVICES :: out[i] == old(out[i])
  {
    hide CleanLine, SectionName, ParseKv, SetKey, CopyBytes, Lines, Finish, MaskOf;
    count := 0;
    var cur, inService := EMPTY_SPEC, false;
    var lines := Lines(config);
    var n := 0;
    assert lines[0..] == lines;
    assert out[..0] == [];
    while n < |lines|
      invariant 0 <= n <= |lines| && count <= MAX_SERVICES
      invariant FeedAll(Parser(out[..count], cur, inService), lines[n..]) == FeedAll(START, lines)
      invariant forall i | count <= i < MAX_SERVICES :: out[i] == old(out[i])
    {
      var line := CleanLine(lines[n]);
      ghost var before := Parser(out[..count], cur, inService);
      assert lines[n..][0] == lines[n] && lines[n..][1..] == lines[n + 1..];
      n := n + 1;
      if line == [] {
        continue;
      }
      var section := SectionName(line);
      if section.Some? {
        FinishOutside(before);
        if inService {
          count := FinishSpec(out, count, cur);
        }
        cur := EMPTY_SPEC.(valid := true, name := CopyBytes(MAX_NAME, section.value));
        inService := true;
        continue;
      }
      if !inService {
        continue;
      }
      var kv := ParseKv(line);
      if kv.None? {
        continue;
      }
      cur := SetKey(cur, kv.value.0, kv.value.1);
    }
    assert lines[n..] == [];
    FinishOutside(Parser(out[..count], cur, inService));
    if inService {
      count := FinishSpec(out, count, cur);
    }
    ResolveDepMask(out, count);
  }

  lemma FinishOutside(p: Parser)
    ensures !p.inService ==> Finish(p) == p.specs
  {}
}
