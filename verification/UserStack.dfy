/** The initial user stack of a process, and a reader of the layout in section 3.4.1 of the System V ABI AMD64
    supplement that shows what a started program finds there. */
module UserStack {
  import opened Bytes

  const AT_NULL: nat := 0
  const AT_PAGESZ: nat := 6
  const AT_ENTRY: nat := 9
  const PAGE_SIZE: nat := 4096
  const ARGV0_MAX: nat := 64
  const WORDS: nat := 10

  type Memory = nat -> byte

  ghost predicate Stored(mem: Memory, at: nat, data: seq<byte>) {
    forall i | 0 <= i < |data| :: mem(at + i) == data[i]
  }

  // ----- the reader -----

  function Word(mem: Memory, a: nat): nat {
    FromLe(seq(8, i requires 0 <= i < 8 => mem(a + i)))
  }

  /** Bytes from a up to the first NUL, not reading past `limit`. */
  function CString(mem: Memory, a: nat, limit: nat): seq<byte>
    decreases limit - a
  {
    if a >= limit || mem(a) == 0 then [] else [mem(a)] + CString(mem, a + 1, limit)
  }

  /** Words from a up to the first zero word. */
  function Pointers(mem: Memory, a: nat, limit: nat): seq<nat>
    decreases limit - a
  {
    if a >= limit || Word(mem, a) == 0 then [] else [Word(mem, a)] + Pointers(mem, a + 8, limit)
  }

  /** Auxiliary vector entries from a up to AT_NULL. */
  function Aux(mem: Memory, a: nat, limit: nat): seq<(nat, nat)>
    decreases limit - a
  {
    if a >= limit || Word(mem, a) == AT_NULL then []
    else [(Word(mem, a), Word(mem, a + 8))] + Aux(mem, a + 16, limit)
  }

  datatype Start = Start(argc: nat, argv: seq<seq<byte>>, envp: seq<nat>, auxv: seq<(nat, nat)>)

  /** What a program entered with stack pointer sp finds. */
  function ReadStart(mem: Memory, sp: nat, top: nat): Start {
    var argvAt := sp + 8;
    var argv := Pointers(mem, argvAt, top);
    var envAt := argvAt + 8 * (|argv| + 1);
    var envp := Pointers(mem, envAt, top);
    var auxAt := envAt + 8 * (|envp| + 1);
    Start(Word(mem, sp), seq(|argv|, i requires 0 <= i < |argv| => CString(mem, argv[i], top)), envp, Aux(mem, auxAt, top))
  }

  function UpToNul(s: seq<byte>): seq<byte> {
    if s == [] || s[0] == 0 then [] else [s[0]] + UpToNul(s[1..])
  }

  lemma {:induction false} NoNul(s: seq<byte>)
    requires 0 !in s
    ensures UpToNul(s) == s
  {
    if s != [] {
      NoNul(s[1..]);
      assert s == [s[0]] + s[1..];
    }
  }

  lemma {:induction false} CStringStored(mem: Memory, a: nat, s: seq<byte>, limit: nat)
    requires Stored(mem, a, s + [0]) && a + |s| < limit
    ensures CString(mem, a, limit) == UpToNul(s)
    decreases |s|
  {
    assert mem(a + 0) == (s + [0])[0];
    if s != [] && s[0] != 0 {
      forall i | 0 <= i < |s[1..] + [0]|
        ensures mem(a + 1 + i) == (s[1..] + [0])[i]
      {
        assert mem(a + (i + 1)) == (s + [0])[i + 1];
      }
      CStringStored(mem, a + 1, s[1..], limit);
    }
  }

  // ----- the builder -----

  /** The word area as bytes. */
  function WordBytes(words: seq<nat>): (raw: seq<byte>)
    ensures |raw| == 8 * |words|
  {
    if words == [] then [] else WordBytes(words[..|words| - 1]) + Le(words[|words| - 1], 8)
  }

  lemma {:induction false} WordStored(mem: Memory, sp: nat, words: seq<nat>, i: nat)
    requires Stored(mem, sp, WordBytes(words)) && i < |words| && words[i] < U64
    ensures Word(mem, sp + 8 * i) == words[i]
    decreases |words|
  {
    hide FromLe, Le;
    var n := |words| - 1;
    var head, last := WordBytes(words[..n]), Le(words[n], 8);
    assert WordBytes(words) == head + last;
    if i < n {
      forall j | 0 <= j < |head| ensures mem(sp + j) == head[j] { assert mem(sp + j) == WordBytes(words)[j]; }
      WordStored(mem, sp, words[..n], i);
    } else {
      var read := seq(8, j requires 0 <= j < 8 => mem(sp + 8 * i + j));
      forall j | 0 <= j < 8
        ensures read[j] == last[j]
      {
        assert mem(sp + (8 * n + j)) == WordBytes(words)[8 * n + j];
      }
      assert read == last;
      Le64RoundTrip(words[i]);
    }
  }

  function StartWords(argv0Ptr: nat, entry: nat): seq<nat> {
    [1, argv0Ptr, 0, 0, AT_PAGESZ, PAGE_SIZE, AT_ENTRY, entry, AT_NULL, 0]
  }

  lemma StartWord(mem: Memory, sp: nat, words: seq<nat>, i: nat, a: nat, w: nat)
    requires Stored(mem, sp, WordBytes(words)) && i < |words| && words[i] == w < U64 && a == sp + 8 * i
    ensures Word(mem, a) == w
  {
    hide Word, Stored, WordBytes;
    WordStored(mem, sp, words, i);
  }

  lemma PointersAt(mem: Memory, a: nat, limit: nat)
    requires a < limit
    ensures Pointers(mem, a, limit) == if Word(mem, a) == 0 then [] else [Word(mem, a)] + Pointers(mem, a + 8, limit)
  {}

  lemma AuxAt(mem: Memory, a: nat, limit: nat)
    requires a < limit
    ensures Aux(mem, a, limit) ==
            if Word(mem, a) == AT_NULL then [] else [(Word(mem, a), Word(mem, a + 8))] + Aux(mem, a + 16, limit)
  {}

  lemma ReadVectors(mem: Memory, sp: nat, top: nat, argv0Ptr: nat, entry: nat)
    requires Stored(mem, sp, WordBytes(StartWords(argv0Ptr, entry)))
    requires 0 < argv0Ptr < U64 && entry < U64 && sp + 80 <= top
    ensures Word(mem, sp) == 1
    ensures Pointers(mem, sp + 8, top) == [argv0Ptr] && Pointers(mem, sp + 24, top) == []
    ensures Aux(mem, sp + 32, top) == [(AT_PAGESZ, PAGE_SIZE), (AT_ENTRY, entry)]
  {
    hide Word, WordBytes, Stored, Pointers, Aux;
    var words := StartWords(argv0Ptr, entry);
    StartWord(mem, sp, words, 0, sp, 1);
    StartWord(mem, sp, words, 1, sp + 8, argv0Ptr);
    StartWord(mem, sp, words, 2, sp + 16, 0);
    StartWord(mem, sp, words, 3, sp + 24, 0);
    PointersAt(mem, sp + 16, top);
    PointersAt(mem, sp + 8, top);
    PointersAt(mem, sp + 24, top);
    StartWord(mem, sp, words, 4, sp + 32, AT_PAGESZ);
    StartWord(mem, sp, words, 5, sp + 40, PAGE_SIZE);
    StartWord(mem, sp, words, 6, sp + 48, AT_ENTRY);
    StartWord(mem, sp, words, 7, sp + 56, entry);
    StartWord(mem, sp, words, 8, sp + 64, AT_NULL);
    AuxAt(mem, sp + 64, top);
    AuxAt(mem, sp + 48, top);
    AuxAt(mem, sp + 32, top);
  }

  /** The reader recovers argc, argv, envp and auxv from the two areas. */
  lemma ReadBack(mem: Memory, sp: nat, top: nat, argv0Ptr: nat, name: seq<byte>, entry: nat)
    requires Stored(mem, sp, WordBytes(StartWords(argv0Ptr, entry))) && Stored(mem, argv0Ptr, name + [0])
    requires 0 < argv0Ptr && argv0Ptr + |name| < top < U64 && entry < U64 && sp + 80 <= top
    ensures ReadStart(mem, sp, top) == Start(1, [UpToNul(name)], [], [(AT_PAGESZ, PAGE_SIZE), (AT_ENTRY, entry)])
  {
    hide Word, CString, WordBytes, Stored, StartWords, Pointers, Aux, UpToNul;
    ReadVectors(mem, sp, top, argv0Ptr, entry);
    CStringStored(mem, argv0Ptr, name, top);
  }

  class AddrSpace {
    var mem: Memory

    constructor ()
      ensures forall a: nat :: mem(a) == 0
    {
      mem := a => 0;
    }

    method Write(at: nat, data: seq<byte>)
      modifies this
      ensures Stored(mem, at, data)
      ensures forall a: nat | !(at <= a < at + |data|) :: mem(a) == old(mem)(a)
    {
      var before := mem;
      mem := (a: nat) => if at <= a < at + |data| then data[a - at] else before(a);
    }
  }

  /** `init_linux_user_stack`. */
  method InitUserStack(aspace: AddrSpace, top: nat, argv0: seq<byte>, entry: nat) returns (sp: nat)
    requires 159 <= top < U64 && entry < U64
    modifies aspace
    ensures sp % 16 == 0 && top - 159 <= sp
    ensures var n := if |argv0| < 63 then |argv0| else 63;
            && sp + 80 + n + 1 <= top
            && ReadStart(aspace.mem, sp, top) ==
               Start(1, [UpToNul(argv0[..n])], [], [(6, 4096), (9, entry)])
            && forall a: nat | !(sp <= a < sp + 80) && !(top - (n + 1) <= a < top) ::
                 aspace.mem(a) == old(aspace.mem)(a)
  {
    hide ReadStart, WordBytes, Stored, UpToNul;
    sp := top;
    var n := if |argv0| < ARGV0_MAX - 1 then |argv0| else ARGV0_MAX - 1;
    var argv0Raw := argv0[..n] + [0];
    sp := sp - (n + 1);
    var argv0Ptr := sp;
    aspace.Write(argv0Ptr, argv0Raw);
    ghost var mem1 := aspace.mem;

    var words := StartWords(argv0Ptr, entry);
    var raw: seq<byte> := [];
    var i := 0;
    WordBytesSteps(words, 0);
    while i < |words|
      invariant 0 <= i <= |words| && raw == WordBytes(words[..i]) && aspace.mem == mem1
    {
      WordBytesSteps(words, i);
      raw := raw + Le(words[i], 8);
      i := i + 1;
    }
    assert words[..i] == words;
    sp := sp - |raw|;
    sp := sp - sp % 16;
    aspace.Write(sp, raw);
    TwoAreas(mem1, aspace.mem, sp, top, argv0Ptr, argv0[..n], entry);
  }

  /** The string area below the top, then the word area somewhere below it, read back as the program's start. */
  lemma TwoAreas(mem1: Memory, mem2: Memory, sp: nat, top: nat, argv0Ptr: nat, name: seq<byte>, entry: nat)
    requires Stored(mem1, argv0Ptr, name + [0]) && Stored(mem2, sp, WordBytes(StartWords(argv0Ptr, entry)))
    requires forall a: nat | !(sp <= a < sp + 8 * WORDS) :: mem2(a) == mem1(a)
    requires sp + 8 * WORDS <= argv0Ptr && argv0Ptr + |name| + 1 == top < U64 && entry < U64
    ensures ReadStart(mem2, sp, top) == Start(1, [UpToNul(name)], [], [(AT_PAGESZ, PAGE_SIZE), (AT_ENTRY, entry)])
  {
    hide ReadStart, WordBytes, UpToNul;
    StoredKept(mem1, mem2, argv0Ptr, name + [0], sp, 8 * WORDS);
    ReadBack(mem2, sp, top, argv0Ptr, name, entry);
  }

  lemma WordBytesSteps(words: seq<nat>, i: nat)
    requires i < |words|
    ensures WordBytes(words[..i + 1]) == WordBytes(words[..i]) + Le(words[i], 8) && WordBytes(words[..0]) == []
  {
    assert words[..i + 1][..i] == words[..i];
  }

  /** A later write below an area leaves the area alone. */
  lemma StoredKept(mem: Memory, mem': Memory, at: nat, data: seq<byte>, low: nat, len: nat)
    requires Stored(mem, at, data) && low + len <= at
    requires forall a: nat | !(low <= a < low + len) :: mem'(a) == mem(a)
    ensures Stored(mem', at, data)
  {}
}
