/** `UserVirtHal::share`: is a buffer physically contiguous? Addresses are 64-bit words with wrap-around. */
module Share {
  import opened Options
  import opened Bytes

  const PAGE: nat := 4096

  /** Page tables map a page number to the address of a page-aligned frame, or to nothing. */
  type PageTable = nat -> Option<nat>

  /** Frames are aligned and the topmost page of the address space is not memory. */
  ghost predicate IsPaging(table: PageTable) {
    forall page: nat :: table(page).Some? ==> table(page).value % PAGE == 0 && table(page).value + PAGE < U64
  }

  function AlignDown(a: nat): nat {
    a - a % PAGE
  }

  /** `do_virt_to_phys`: the frame of the page plus the offset within the page. */
  function Translate(table: PageTable, v: nat): Option<nat> {
    match table(v / PAGE)
    case None => None
    case Some(frame) => Some(frame + v % PAGE)
  }

  /** The VirtToPhys system call as user space sees it; `unmapped` is the word reported for a missing page. */
  function VirtToPhys(table: PageTable, unmapped: nat, v: nat): nat {
    match Translate(table, v)
    case None => unmapped
    case Some(p) => p
  }

  /** Byte k of a buffer at virtual address v sits at physical address p + k. */
  ghost predicate ByteAt(table: PageTable, v: nat, p: nat, k: nat) {
    Translate(table, v + k) == Some(p + k)
  }

  ghost predicate Contiguous(table: PageTable, v: nat, len: nat, p: nat) {
    forall k: nat | k < len :: ByteAt(table, v, p, k)
  }

  const ALL_ONES: nat := U64 - 1

  /** Within one page, translation preserves offsets. */
  lemma SamePage(table: PageTable, v: nat, k: nat)
    requires v % PAGE + k < PAGE
    ensures Translate(table, v + k) ==
            match Translate(table, v) case None => None case Some(p) => Some(p + k)
  {
    assert (v + k) / PAGE == v / PAGE && (v + k) % PAGE == v % PAGE + k;
  }

  /** Every byte of the buffer lies in a mapped page. */
  ghost predicate Mapped(table: PageTable, v: nat, len: nat) {
    forall k: nat | k < len :: ByteMapped(table, v, k)
  }

  ghost predicate ByteMapped(table: PageTable, v: nat, k: nat) {
    Translate(table, v + k).Some?
  }

  /** The comparison the loop makes at offset c, on the words that the system call reports. */
  ghost predicate PagePasses(table: PageTable, unmapped: nat, v: nat, c: nat) {
    var first, cur := VirtToPhys(table, unmapped, v), VirtToPhys(table, unmapped, v + c);
    cur != ALL_ONES && AlignDown(cur) == AlignDown((first + c) % U64)
  }

  predicate PageStart(v: nat, c: nat) {
    (v + c) % PAGE == 0
  }

  /** The comparison passes at every page start below offset n. */
  ghost predicate PassesBelow(table: PageTable, unmapped: nat, v: nat, n: nat) {
    forall c: nat | 0 < c < n && PageStart(v, c) :: PagePasses(table, unmapped, v, c)
  }

  /** The reported words look like a contiguous buffer at a nonzero address: the first is neither all ones nor zero,
      and the comparison passes at every page start inside the buffer. */
  ghost predicate Plausible(table: PageTable, unmapped: nat, v: nat, len: nat) {
    && len > 0 && VirtToPhys(table, unmapped, v) !in {0, ALL_ONES}
    && PassesBelow(table, unmapped, v, len)
  }

  /** p is the answer a caller needs: q != 0 exactly when every byte k of the buffer is mapped to q + k. */
  ghost predicate RightAnswer(table: PageTable, v: nat, len: nat, p: nat) {
    forall q: nat | q != 0 :: p == q <==> Contiguous(table, v, len, q)
  }

  /** At a page start behind a contiguous stretch, comparing page addresses decides the byte, if the page is mapped or
      missing pages are reported as all ones or zero. */
  lemma PageTest(table: PageTable, unmapped: nat, v: nat, p: nat, c: nat)
    requires IsPaging(table) && Translate(table, v) == Some(p)
    requires 0 < c && PageStart(v, c) && Contiguous(table, v, c, p)
    requires ByteMapped(table, v, c) || unmapped in {0, ALL_ONES}
    ensures PagePasses(table, unmapped, v, c) <==> ByteAt(table, v, p, c)
  {
    hide IsPaging, PageStart, AlignDown, Contiguous;
    PageEnd(table, v, p, c);
    var end := p + c;
    assert end % U64 == end;
    StartsPage(table, v, c);
    AlignFixes(end);
  }

  /** The byte behind a contiguous stretch that ends with its page has a page-aligned, in-range address. */
  lemma PageEnd(table: PageTable, v: nat, p: nat, c: nat)
    requires IsPaging(table) && 0 < c && PageStart(v, c) && Contiguous(table, v, c, p)
    ensures (p + c) % PAGE == 0 && PAGE <= p + c < U64
  {
    assert ByteAt(table, v, p, c - 1);
    assert (v + c - 1) % PAGE == PAGE - 1;
  }

  /** A page start, if mapped, is the start of a frame. */
  lemma StartsPage(table: PageTable, v: nat, c: nat)
    requires IsPaging(table) && PageStart(v, c)
    ensures match Translate(table, v + c) case None => true case Some(q) => q % PAGE == 0 && AlignDown(q) == q && q < ALL_ONES
  {}

  lemma AlignFixes(a: nat)
    requires a % PAGE == 0
    ensures AlignDown(a) == a && AlignDown(0) == 0
  {}

  /** Byte by byte: a buffer whose page starts pass is contiguous from its first byte. */
  lemma {:induction false} PassingIsContiguous(table: PageTable, unmapped: nat, v: nat, len: nat, p: nat)
    requires IsPaging(table) && len > 0 && Translate(table, v) == Some(p)
    requires Mapped(table, v, len) || unmapped in {0, ALL_ONES}
    requires PassesBelow(table, unmapped, v, len)
    ensures Contiguous(table, v, len, p)
  {
    hide PagePasses, IsPaging, PageStart, Translate;
    if len > 1 {
      var c := len - 1;
      PassingIsContiguous(table, unmapped, v, c, p);
      assert Mapped(table, v, len) ==> ByteMapped(table, v, c);
      if PageStart(v, c) {
        PageTest(table, unmapped, v, p, c);
      } else {
        WithinPage(table, v, p, c);
      }
    }
  }

  /** Off a page start, the byte behind a contiguous stretch continues it. */
  lemma WithinPage(table: PageTable, v: nat, p: nat, c: nat)
    requires c > 0 && !PageStart(v, c) && Contiguous(table, v, c, p)
    ensures ByteAt(table, v, p, c)
  {
    hide Translate;
    assert ByteAt(table, v, p, c - 1);
    SamePage(table, v + c - 1, 1);
  }

  lemma {:induction false} ContiguousPasses(table: PageTable, unmapped: nat, v: nat, len: nat, q: nat)
    requires IsPaging(table) && len > 0 && q != 0 && Contiguous(table, v, len, q)
    ensures VirtToPhys(table, unmapped, v) == q && Plausible(table, unmapped, v, len) && Mapped(table, v, len)
  {
    assert ByteAt(table, v, q, 0);
    forall k: nat | k < len
      ensures ByteMapped(table, v, k)
    {
      assert ByteAt(table, v, q, k);
    }
    forall c: nat | 0 < c < len && PageStart(v, c)
      ensures PagePasses(table, unmapped, v, c)
    {
      assert ByteAt(table, v, q, c);
      assert Contiguous(table, v, c, q);
      PageTest(table, unmapped, v, q, c);
    }
  }

  /** When answering with the first word iff the words are plausible is right: always for mapped buffers and for
      missing pages reported as all ones or zero; otherwise exactly when a buffer with a missing page is not
      plausible. */
  lemma RightIff(table: PageTable, unmapped: nat, v: nat, len: nat, p: nat)
    requires IsPaging(table) && len > 0
    requires p == if Plausible(table, unmapped, v, len) then VirtToPhys(table, unmapped, v) else 0
    ensures RightAnswer(table, v, len, p) <==> Mapped(table, v, len) || !Plausible(table, unmapped, v, len)
    ensures unmapped in {0, ALL_ONES} ==> RightAnswer(table, v, len, p)
  {
    hide PagePasses, IsPaging, Contiguous, ByteAt, Mapped;
    forall q: nat | q != 0 && Contiguous(table, v, len, q)
      ensures p == q && Mapped(table, v, len)
    {
      ContiguousPasses(table, unmapped, v, len, q);
    }
    FirstMapped(table, v, len);
    if Plausible(table, unmapped, v, len) {
      assert RightAnswer(table, v, len, p) ==> Contiguous(table, v, len, p);
    }
    if Plausible(table, unmapped, v, len) && (Mapped(table, v, len) || unmapped in {0, ALL_ONES}) {
      PassingIsContiguous(table, unmapped, v, len, p);
    }
  }

  lemma FirstMapped(table: PageTable, v: nat, len: nat)
    requires len > 0
    ensures Mapped(table, v, len) ==> Translate(table, v).Some?
  {
    assert Mapped(table, v, len) ==> ByteMapped(table, v, 0);
  }

  /** Any other report for missing pages is wrong somewhere: a byte in a missing page passes for memory. */
  lemma OtherReportsFail(unmapped: nat)
    requires unmapped < U64 && unmapped !in {0, ALL_ONES}
    ensures exists table, v: nat, len: nat ::
              IsPaging(table) && Plausible(table, unmapped, v, len) && !Mapped(table, v, len)
  {
    var table: PageTable := page => None;
    assert !ByteMapped(table, 0, 0);
    assert IsPaging(table) && Plausible(table, unmapped, 0, 1) && !Mapped(table, 0, 1);
  }

  /** `share`: `unmapped` is the word that the system call reports for a missing page. */
  method ShareBuffer(table: PageTable, unmapped: nat, vaddr: nat, len: nat) returns (p: nat)
    requires IsPaging(table) && vaddr + len <= U64 && unmapped < U64
    ensures p == if Plausible(table, unmapped, vaddr, len) then VirtToPhys(table, unmapped, vaddr) else 0
    ensures len > 0 && (unmapped in {0, ALL_ONES} || Mapped(table, vaddr, len)) ==> RightAnswer(table, vaddr, len, p)
    ensures len > 0 ==>
              (RightAnswer(table, vaddr, len, p) <==>
               Mapped(table, vaddr, len) || !Plausible(table, unmapped, vaddr, len))
  {
    hide Translate, AlignDown, IsPaging, RightAnswer, Mapped, PassesBelow, PageStart;
    if len == 0 {
      return 0;
    }
    var first := VirtToPhys(table, unmapped, vaddr);
    RightIff(table, unmapped, vaddr, len, if Plausible(table, unmapped, vaddr, len) then first else 0);
    if first == ALL_ONES {
      return 0;
    }
    var rem := PAGE - vaddr % PAGE;
    var covered := if len < rem then len else rem;
    PassesExtend(table, unmapped, vaddr, 0, covered);
    while covered < len
      invariant 0 < covered <= len
      invariant covered < len ==> PageStart(vaddr, covered)
      invariant PassesBelow(table, unmapped, vaddr, covered)
    {
      var cur := VirtToPhys(table, unmapped, vaddr + covered);
      var expected := AlignDown((first + covered) % U64);
      if cur == ALL_ONES || AlignDown(cur) != expected {
        PassesNot(table, unmapped, vaddr, covered, len);
        return 0;
      }
      var step := if len - covered < PAGE then len - covered else PAGE;
      PassesExtend(table, unmapped, vaddr, covered, covered + step);
      covered := covered + step;
    }
    return first;
  }

  lemma PassesNot(table: PageTable, unmapped: nat, v: nat, c: nat, len: nat)
    requires 0 < c < len && PageStart(v, c) && !PagePasses(table, unmapped, v, c)
    ensures !PassesBelow(table, unmapped, v, len)
  {}

  /** Between an offset and the end of its page lies no other page start. */
  lemma PassesExtend(table: PageTable, unmapped: nat, v: nat, from: nat, to: nat)
    requires from <= to && (from == 0 || (PageStart(v, from) && PagePasses(table, unmapped, v, from)))
    requires from == 0 || PassesBelow(table, unmapped, v, from)
    requires to - from <= if from == 0 then PAGE - v % PAGE else PAGE
    ensures PassesBelow(table, unmapped, v, to)
    ensures (from == 0 && to == PAGE - v % PAGE) || (from > 0 && to == from + PAGE) ==> PageStart(v, to)
  {
    hide PagePasses, PageStart, Translate;
    forall c: nat | from < c < to
      ensures !PageStart(v, c)
    {
      NoStartWithin(v, from, c);
    }
    NextStart(v, from);
  }

  lemma NoStartWithin(v: nat, from: nat, c: nat)
    requires from < c && c - from < (if from == 0 then PAGE - v % PAGE else PAGE) && (from == 0 || PageStart(v, from))
    ensures !PageStart(v, c)
  {
    var x := v + from;
    assert (x + (c - from)) % PAGE == x % PAGE + (c - from);
  }

  lemma NextStart(v: nat, from: nat)
    ensures PageStart(v, PAGE - v % PAGE) && (PageStart(v, from) ==> PageStart(v, from + PAGE))
  {}
}
