/** Init's message handling: control requests are served from the registry even while init waits for a reply. */
module ControlPlane {
  import opened Options
  import opened Bytes
  import opened SlotTable
  import opened Registries

  const HDR_LEN: nat := 4
  const REQ_REGISTER: nat := 1
  const REQ_LOOKUP: nat := 2
  const REQ_DEVICE_QUERY: nat := 3
  const WAIT_BUF_LEN: nat := 64

  const OK: seq<byte> := [79, 75]
  const ENOENT: seq<byte> := [69, 78, 79, 69, 78, 84]

  const PCI_ECAM_BASE: nat := 0x4010_000000
  const VIRTIO_BLK_MMIO_BASE: nat := 0x0a00_0000
  const VIRTIO_BLK_MMIO_SIZE: nat := 0x1000

  const KEY_ECAM_BASE: Name := Ascii("pci.ecam_base")
  const KEY_MMIO_BASE: Name := Ascii("virtio_blk.mmio_base")
  const KEY_MMIO_SIZE: Name := Ascii("virtio_blk.mmio_size")

  /** A message as the receive call hands it over: sender, bytes, and a capability if one was passed. */
  datatype Message = Message(from: nat, bytes: seq<byte>, cap: Option<nat>)

  /** A reply sent to capability `to`, perhaps passing a capability on. */
  datatype Sent = Sent(to: nat, bytes: seq<byte>, passed: Option<nat>)

  datatype Request = Request(opcode: nat, name: Name)

  function ParseControl(req: seq<byte>): Option<Request> {
    if |req| < HDR_LEN then None
    else
      var n := FromLe(req[2..4]);
      if n == 0 || n > MAX_NAME || |req| < HDR_LEN + n then None
      else Some(Request(FromLe(req[..2]), req[4..4 + n]))
  }

  /** A request as `ctl_register_service` and its siblings frame it. */
  function ControlFrame(opcode: nat, name: Name): seq<byte> {
    Le(opcode, 2) + Le(|name|, 2) + name
  }

  /** Framing then parsing gives the request back exactly for names the registry accepts. */
  lemma ParseFrame(opcode: nat, name: Name)
    requires opcode < 0x1_0000 && |name| < 0x1_0000
    ensures ParseControl(ControlFrame(opcode, name)) == if ValidName(name) then Some(Request(opcode, name)) else None
  {
    var f := ControlFrame(opcode, name);
    Widths();
    LeRoundTrip(opcode, 2);
    LeRoundTrip(|name|, 2);
    assert f[..2] == Le(opcode, 2) && f[2..4] == Le(|name|, 2) && f[4..4 + |name|] == name;
  }

  /** Which byte strings are requests at all: exactly those that begin with the frame of an accepted name. */
  lemma ParsesIff(req: seq<byte>, opcode: nat, name: Name)
    requires opcode < 0x1_0000
    ensures ParseControl(req) == Some(Request(opcode, name)) <==> ValidName(name) && ControlFrame(opcode, name) <= req
  {
    hide Le, FromLe;
    if ValidName(name) && ControlFrame(opcode, name) <= req {
      var f := ControlFrame(opcode, name);
      ParseFrame(opcode, name);
      assert req[..2] == f[..2] && req[2..4] == f[2..4] && req[4..4 + |name|] == f[4..4 + |name|] == name;
      Widths();
      LeRoundTrip(opcode, 2);
      LeRoundTrip(|name|, 2);
    }
    if ParseControl(req) == Some(Request(opcode, name)) {
      TwoBytes(req[..2]);
      TwoBytes(req[2..4]);
      assert req == req[..2] + req[2..4] + req[4..4 + |name|] + req[4 + |name|..];
    }
  }

  lemma TwoBytes(s: seq<byte>)
    requires |s| == 2
    ensures Le(FromLe(s), 2) == s
  {
    assert s[1..][1..] == [];
    assert FromLe(s[1..]) == s[1] as nat && FromLe(s) == s[0] as nat + 256 * s[1] as nat;
    assert Le(s[1] as nat, 1) == [s[1]];
  }

  function DeviceValue(key: Name): Option<nat> {
    if key == KEY_ECAM_BASE then Some(PCI_ECAM_BASE)
    else if key == KEY_MMIO_BASE then Some(VIRTIO_BLK_MMIO_BASE)
    else if key == KEY_MMIO_SIZE then Some(VIRTIO_BLK_MMIO_SIZE)
    else None
  }

  /** The answer a request gets from a directory, if it asks for one and says where to send it. */
  function Answer(dir: map<Name, Entry>, m: Message): seq<Sent> {
    match ParseControl(m.bytes)
    case None => []
    case Some(req) =>
      if m.cap.None? then []
      else if req.opcode == REQ_LOOKUP then
        (match Find(dir, req.name)
         case Some(h) => [Sent(m.cap.value, OK, Some(h))]
         case None => [Sent(m.cap.value, ENOENT, None)])
      else if req.opcode == REQ_DEVICE_QUERY then
        (match DeviceValue(req.name)
         case Some(v) => [Sent(m.cap.value, OK + Le(v, 8), None)]
         case None => [Sent(m.cap.value, ENOENT, None)])
      else []
  }

  /** A registration: a well-formed register request that carries a capability. */
  predicate IsRegistration(m: Message) {
    m.cap.Some? && ParseControl(m.bytes).Some? && ParseControl(m.bytes).value.opcode == REQ_REGISTER
  }

  function AfterMessage(dir: map<Name, Entry>, m: Message): map<Name, Entry> {
    if IsRegistration(m) then InitRegistered(dir, ParseControl(m.bytes).value.name, m.from, m.cap.value) else dir
  }

  /** `handle_control_plane_msg`. */
  method Handle(registry: InitRegistry, m: Message) returns (known: bool, sent: seq<Sent>)
    requires registry.Valid()
    modifies registry.slots
    ensures registry.Valid() && registry.Dir() == AfterMessage(old(registry.Dir()), m)
    ensures sent == Answer(old(registry.Dir()), m)
    ensures known <==> ParseControl(m.bytes).Some? && ParseControl(m.bytes).value.opcode in {1, 2, 3}
  {
    hide Directory, FromLe, Le, DeviceValue, InitRegistered;
    sent := [];
    var parsed := ParseControl(m.bytes);
    if parsed.None? {
      return false, [];
    }
    var Request(opcode, name) := parsed.value;
    if opcode == REQ_REGISTER {
      if m.cap.Some? {
        var _ := registry.Register(name, m.from, m.cap.value);
      }
      return true, [];
    } else if opcode == REQ_LOOKUP {
      if m.cap.None? {
        return true, [];
      }
      var h := registry.Lookup(name);
      return true, if h.Some? then [Sent(m.cap.value, OK, Some(h.value))] else [Sent(m.cap.value, ENOENT, None)];
    } else if opcode == REQ_DEVICE_QUERY {
      if m.cap.None? {
        return true, [];
      }
      var v := DeviceValue(name);
      return true, if v.Some? then [Sent(m.cap.value, OK + Le(v.value, 8), None)] else [Sent(m.cap.value, ENOENT, None)];
    }
    return false, [];
  }

  // ----- waiting -----

  /** What the k-th receive yields: nothing in time, or a message cut to the 64-byte buffer. */
  type Arrivals = nat -> Option<Message>

  function Cut(m: Message): (r: Message)
    ensures r.from == m.from && r.cap == m.cap && r.bytes <= m.bytes
    ensures |r.bytes| == if |m.bytes| <= 64 then |m.bytes| else 64
  {
    if |m.bytes| <= WAIT_BUF_LEN then m else m.(bytes := m.bytes[..WAIT_BUF_LEN])
  }

  /** The messages that receives 0..n-1 consume, in order. */
  ghost function Consumed(arrivals: Arrivals, n: nat): seq<Message> {
    if n == 0 then []
    else if arrivals(n - 1).None? then Consumed(arrivals, n - 1)
    else Consumed(arrivals, n - 1) + [Cut(arrivals(n - 1).value)]
  }

  /** Folding a message list into a directory, and the replies sent on the way. */
  ghost function Fold(dir: map<Name, Entry>, ms: seq<Message>): (map<Name, Entry>, seq<Sent>) {
    if ms == [] then (dir, [])
    else
      var (d, sent) := Fold(dir, ms[..|ms| - 1]);
      var m := ms[|ms| - 1];
      (AfterMessage(d, m), sent + Answer(d, m))
  }

  /** `wait_for_reply_or_control`: every message before the accepted reply is handled as control traffic, the
      reply itself is not, and no more than `tries` receives happen. */
  method WaitForReply(registry: InitRegistry, expected: seq<byte>, tries: nat, arrivals: Arrivals)
    returns (found: bool, sent: seq<Sent>, ghost receives: nat)
    requires registry.Valid()
    modifies registry.slots
    ensures registry.Valid() && receives <= tries
    ensures !found ==> receives == tries
    ensures found ==> receives > 0 && arrivals(receives - 1).Some?
    ensures found ==> var m := Cut(arrivals(receives - 1).value); m.cap == None && m.bytes == expected
    ensures var handled := if found then receives - 1 else receives;
            && (forall m | m in Consumed(arrivals, handled) :: !(m.cap == None && m.bytes == expected))
            && (registry.Dir(), sent) == Fold(old(registry.Dir()), Consumed(arrivals, handled))
  {
    hide AfterMessage, Answer, Directory, Fold, Unique;
    FoldNone(registry.Dir());
    sent := [];
    receives := 0;
    var i := 0;
    while i < tries
      invariant 0 <= i <= tries && receives == i && registry.Valid()
      invariant forall m | m in Consumed(arrivals, i) :: !(m.cap == None && m.bytes == expected)
      invariant (registry.Dir(), sent) == Fold(old(registry.Dir()), Consumed(arrivals, i))
    {
      var arrival := arrivals(i);
      receives := receives + 1;
      if arrival.None? {
        i := i + 1;
        continue;
      }
      var m := Cut(arrival.value);
      if m.cap.None? && m.bytes == expected {
        return true, sent, receives;
      }
      FoldStep(old(registry.Dir()), Consumed(arrivals, i), m);
      var _, replies := Handle(registry, m);
      sent := sent + replies;
      i := i + 1;
    }
    found := false;
  }

  lemma FoldNone(dir: map<Name, Entry>)
    ensures Fold(dir, []) == (dir, [])
  {}

  lemma FoldStep(dir: map<Name, Entry>, ms: seq<Message>, m: Message)
    ensures var (d, sent) := Fold(dir, ms); Fold(dir, ms + [m]) == (AfterMessage(d, m), sent + Answer(d, m))
  {
    hide AfterMessage, Answer;
    assert (ms + [m])[..|ms|] == ms;
  }

  ghost function Registrations(ms: seq<Message>): seq<Message> {
    if ms == [] then []
    else
      var rest, m := Registrations(ms[..|ms| - 1]), ms[|ms| - 1];
      if IsRegistration(m) then rest + [m] else rest
  }

  ghost function RegisterAll(dir: map<Name, Entry>, ms: seq<Message>): map<Name, Entry>
    requires forall m | m in ms :: IsRegistration(m)
  {
    if ms == [] then dir
    else
      var m := ms[|ms| - 1];
      assert m in ms && IsRegistration(m);
      InitRegistered(RegisterAll(dir, ms[..|ms| - 1]), ParseControl(m.bytes).value.name, m.from, m.cap.value)
  }

  lemma RegisterAllStep(dir: map<Name, Entry>, ms: seq<Message>, m: Message)
    requires (forall r | r in ms :: IsRegistration(r)) && IsRegistration(m)
    ensures (forall r | r in ms + [m] :: IsRegistration(r))
    ensures RegisterAll(dir, ms + [m]) == AfterMessage(RegisterAll(dir, ms), m)
  {
    hide ParseControl, InitRegistered;
    assert (ms + [m])[..|ms|] == ms;
  }

  /** The registry after a wait is the old one with exactly the consumed registrations applied, in order. */
  lemma {:induction false} OnlyRegistrationsMatter(dir: map<Name, Entry>, ms: seq<Message>)
    ensures forall m | m in Registrations(ms) :: IsRegistration(m)
    ensures Fold(dir, ms).0 == RegisterAll(dir, Registrations(ms))
  {
    hide ParseControl, InitRegistered, Answer, FromLe;
    if ms != [] {
      var rest, m := ms[..|ms| - 1], ms[|ms| - 1];
      OnlyRegistrationsMatter(dir, rest);
      if IsRegistration(m) {
        RegisterAllStep(dir, Registrations(rest), m);
      }
    }
  }

  // ----- what clients see -----

  /** Message m asks to register this name. */
  predicate Registers(m: Message, name: Name) {
    IsRegistration(m) && ParseControl(m.bytes).value.name == name
  }

  /** Traffic that does not register a name leaves its entry alone. */
  lemma {:induction false} OtherTraffic(dir: map<Name, Entry>, ms: seq<Message>, name: Name)
    requires forall m | m in ms :: !Registers(m, name)
    ensures Find(Fold(dir, ms).0, name) == Find(dir, name)
  {
    hide ParseControl, Answer;
    if ms != [] {
      var rest, m := ms[..|ms| - 1], ms[|ms| - 1];
      assert m in ms && !Registers(m, name);
      OtherTraffic(dir, rest, name);
      FoldStep(dir, rest, m);
      assert rest + [m] == ms;
    }
  }

  function RegisterMessage(from: nat, name: Name, cap: nat): Message {
    Message(from, ControlFrame(1, name), Some(cap))
  }

  function LookupMessage(from: nat, name: Name, reply: nat): Message {
    Message(from, ControlFrame(2, name), Some(reply))
  }

  /** A client that looks a service up after it was accepted, with any other traffic in between, is sent exactly one
      message: "OK", passing the very capability that was registered. */
  lemma RegisterThenLookup(dir: map<Name, Entry>, pid: nat, name: Name, cap: nat, ms: seq<Message>, from: nat, reply: nat)
    requires ValidName(name) && cap != 0 && (name in dir || |dir| < 16)
    requires forall m | m in ms :: !Registers(m, name)
    ensures var dir' := Fold(AfterMessage(dir, RegisterMessage(pid, name, cap)), ms).0;
            Answer(dir', LookupMessage(from, name, reply)) == [Sent(reply, [79, 75], Some(cap))]
  {
    hide Fold, ControlFrame, ParseControl;
    ParseFrame(REQ_REGISTER, name);
    ParseFrame(REQ_LOOKUP, name);
    OtherTraffic(AfterMessage(dir, RegisterMessage(pid, name, cap)), ms, name);
  }

  /** A name that nobody registered is answered "ENOENT". */
  lemma NeverRegistered(ms: seq<Message>, name: Name, from: nat, reply: nat)
    requires ValidName(name) && forall m | m in ms :: !Registers(m, name)
    ensures Answer(Fold(map[], ms).0, LookupMessage(from, name, reply)) == [Sent(reply, [69, 78, 79, 69, 78, 84], None)]
  {
    hide Fold, ControlFrame, ParseControl;
    ParseFrame(REQ_LOOKUP, name);
    OtherTraffic(map[], ms, name);
  }

  /** Each device key is answered with its own value, eight bytes little-endian behind "OK", whatever is registered;
      every other key is answered "ENOENT". */
  lemma DeviceAnswers(dir: map<Name, Entry>, key: Name, from: nat, reply: nat)
    requires ValidName(key)
    ensures var sent := Answer(dir, Message(from, ControlFrame(3, key), Some(reply)));
            && |sent| == 1 && sent[0].to == reply && sent[0].passed == None
            && (key == KEY_ECAM_BASE ==> Carries(sent[0].bytes, 0x4010_000000))
            && (key == KEY_MMIO_BASE ==> Carries(sent[0].bytes, 0x0a00_0000))
            && (key == KEY_MMIO_SIZE ==> Carries(sent[0].bytes, 0x1000))
            && (key !in {KEY_ECAM_BASE, KEY_MMIO_BASE, KEY_MMIO_SIZE} ==> sent[0].bytes == [69, 78, 79, 69, 78, 84])
  {
    hide ControlFrame, ParseControl, Le, FromLe, Carries, KEY_ECAM_BASE, KEY_MMIO_BASE, KEY_MMIO_SIZE;
    ParseFrame(REQ_DEVICE_QUERY, key);
    OkCarries(PCI_ECAM_BASE);
    OkCarries(VIRTIO_BLK_MMIO_BASE);
    OkCarries(VIRTIO_BLK_MMIO_SIZE);
    KeysDiffer();
  }

  /** "OK" and a 64-bit value. */
  predicate Carries(bytes: seq<byte>, v: nat) {
    |bytes| == 10 && bytes[..2] == [79, 75] && FromLe(bytes[2..]) == v
  }

  lemma OkCarries(v: nat)
    requires v < U64
    ensures Carries(OK + Le(v, 8), v)
  {
    hide Le, FromLe;
    Le64RoundTrip(v);
    assert (OK + Le(v, 8))[2..] == Le(v, 8);
  }

  lemma KeysDiffer()
    ensures KEY_ECAM_BASE != KEY_MMIO_BASE && KEY_ECAM_BASE != KEY_MMIO_SIZE && KEY_MMIO_BASE != KEY_MMIO_SIZE
  {
    assert |KEY_ECAM_BASE| == 13 && |KEY_MMIO_BASE| == |KEY_MMIO_SIZE| == 20;
    assert KEY_MMIO_BASE[16] as int == 'b' as int && KEY_MMIO_SIZE[16] as int == 's' as int;
  }
}
