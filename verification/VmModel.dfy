/** kern/vm/addrspace.c, active part: the region translation of an address space and the TLB as
    a cache of it. */
module VmModel {
  const W32 := 0x1_0000_0000
  const PAGE := 4096
  const NTLB := 64
  const USERSTACK := 0x8000_0000
  const STACKPAGES := 12

  type Word = w: int | 0 <= w < 0x1_0000_0000

  datatype Option<T> = None | Some(value: T)

  /** 32-bit wrap-around. */
  function Wrap(x: int): Word { x % W32 }

  function Frame(a: Word): Word { a / PAGE * PAGE }

  datatype AS = AS(vbase1: Word, pbase1: Word, npages1: Word, vbase2: Word, pbase2: Word, npages2: Word, stackp: Word)

  predicate InRegion(va: Word, vbase: Word, npages: Word) { vbase <= va < Wrap(vbase + npages * PAGE) }

  const STACKBASE := USERSTACK - STACKPAGES * PAGE

  /** The physical address vm_fault computes for a page, if it is in one of the regions. */
  function Translate(sp: AS, va: Word): Option<Word> {
    if InRegion(va, sp.vbase1, sp.npages1) then Some(Wrap(va - sp.vbase1 + sp.pbase1))
    else if InRegion(va, sp.vbase2, sp.npages2) then Some(Wrap(va - sp.vbase2 + sp.pbase2))
    else if STACKBASE <= va < USERSTACK then Some(Wrap(va - STACKBASE + sp.stackp))
    else None
  }

  predicate Aligned(a: Word) { a % PAGE == 0 }

  /** What vm_fault asserts of a space: regions defined, loaded and page-aligned. */
  predicate Loaded(sp: AS) {
    && sp.vbase1 != 0 && sp.pbase1 != 0 && sp.npages1 != 0 && sp.vbase2 != 0 && sp.pbase2 != 0 && sp.npages2 != 0
    && sp.stackp != 0
    && Aligned(sp.vbase1) && Aligned(sp.pbase1) && Aligned(sp.vbase2) && Aligned(sp.pbase2) && Aligned(sp.stackp)
  }

  lemma SumAligned(x: int, y: int, z: int)
    requires x % PAGE == 0 && y % PAGE == 0 && z % PAGE == 0
    ensures Wrap(x - y + z) % PAGE == 0
  {
    var s := x - y + z;
    assert s % PAGE == 0;
    assert s == W32 * (s / W32) + s % W32;
  }

  /** The frame of a page is page-aligned, as vm_fault asserts. */
  lemma TranslateAligned(sp: AS, va: Word)
    requires Loaded(sp) && Aligned(va) && Translate(sp, va).Some?
    ensures Aligned(Translate(sp, va).value)
  {
    hide Wrap;
    SumAligned(va, sp.vbase1, sp.pbase1);
    SumAligned(va, sp.vbase2, sp.pbase2);
    SumAligned(va, STACKBASE, sp.stackp);
  }

  // ---------------------------------------------------------------- the TLB

  datatype Entry = Entry(ehi: Word, elo: Word)

  /** Bit 9, TLBLO_VALID. */
  predicate Valid(e: Entry) { e.elo % 0x400 >= 0x200 }
  function VPage(e: Entry): Word { Frame(e.ehi) }
  function PPage(e: Entry): Word { Frame(e.elo) }

  /** paddr | TLBLO_DIRTY | TLBLO_VALID for an aligned paddr. */
  function Mapping(va: Word, pa: Word): Entry
    requires Aligned(pa)
  {
    Entry(va, pa + 0x400 + 0x200)
  }

  function Blank(i: nat): Entry
    requires i < NTLB
  {
    Entry((0x80000 + i) * PAGE, 0)
  }

  lemma MappingOk(va: Word, pa: Word)
    requires Aligned(va) && Aligned(pa)
    ensures Valid(Mapping(va, pa)) && VPage(Mapping(va, pa)) == va && PPage(Mapping(va, pa)) == pa
  {
    MappingBits(pa / PAGE);
    assert PAGE * (pa / PAGE) == pa;
  }

  lemma MappingBits(q: nat)
    ensures (PAGE * q + 0x600) % 0x400 == 0x200 && (PAGE * q + 0x600) / PAGE == q
  {
    Low10(4 * q + 1);
    assert PAGE * q + 0x600 == 0x400 * (4 * q + 1) + 0x200;
    DivPage(q);
  }

  lemma Low10(y: nat)
    ensures (0x400 * y + 0x200) % 0x400 == 0x200
  {
  }

  lemma DivPage(q: nat)
    ensures (PAGE * q + 0x600) / PAGE == q
  {
  }

  /** The valid bit, as a bit. */
  lemma ValidBit(e: Entry)
    ensures Valid(e) <==> e.elo / 0x200 % 2 == 1
  {
  }

  function FirstInvalid(t: seq<Entry>): (i: nat)
    ensures i <= |t| && (i < |t| ==> !Valid(t[i])) && (forall j :: 0 <= j < i ==> Valid(t[j]))
  {
    if t == [] || !Valid(t[0]) then 0 else 1 + FirstInvalid(t[1..])
  }

  /** Every valid entry is the space's own translation of its page. */
  ghost predicate Coherent(t: seq<Entry>, sp: AS) {
    forall i :: 0 <= i < |t| && Valid(t[i]) ==> Translate(sp, VPage(t[i])) == Some(PPage(t[i]))
  }

  /** No page is in two valid entries. */
  ghost predicate NoDuplicates(t: seq<Entry>) {
    forall i, j :: 0 <= i < j < |t| && Valid(t[i]) && Valid(t[j]) ==> VPage(t[i]) != VPage(t[j])
  }

  /** The valid entries are the first k. */
  ghost predicate FilledTo(t: seq<Entry>, k: nat) {
    k <= |t| && forall i :: 0 <= i < |t| ==> (Valid(t[i]) <==> i < k)
  }

  predicate Misses(t: seq<Entry>, va: Word) { forall i :: 0 <= i < |t| && Valid(t[i]) ==> VPage(t[i]) != Frame(va) }

  lemma FrameAligned(a: Word)
    ensures Aligned(Frame(a)) && Frame(Frame(a)) == Frame(a)
  {
  }

  function Handled(t: seq<Entry>, sp: AS, va: Word): bool {
    Translate(sp, Frame(va)).Some? && FirstInvalid(t) < |t|
  }

  function Faulted(t: seq<Entry>, sp: AS, va: Word): seq<Entry>
    requires Loaded(sp)
  {
    if Handled(t, sp, va) then
      FrameAligned(va);
      TranslateAligned(sp, Frame(va));
      t[FirstInvalid(t) := Mapping(Frame(va), Translate(sp, Frame(va)).value)]
    else t
  }

  /** va is in one of the two regions, whose ends are taken modulo 2^32, or in the twelve pages
      below 0x80000000. */
  predicate InSpace(sp: AS, va: int) {
    || sp.vbase1 <= va < (sp.vbase1 + sp.npages1 * 4096) % 0x1_0000_0000
    || sp.vbase2 <= va < (sp.vbase2 + sp.npages2 * 4096) % 0x1_0000_0000
    || 0x7fff_4000 <= va < 0x8000_0000
  }

  /** Its place in the memory of its region; the first region goes before the second, and that
      before the stack. */
  function PlaceOf(sp: AS, va: int): int {
    if sp.vbase1 <= va < (sp.vbase1 + sp.npages1 * 4096) % 0x1_0000_0000
    then sp.pbase1 + (va - sp.vbase1)
    else if sp.vbase2 <= va < (sp.vbase2 + sp.npages2 * 4096) % 0x1_0000_0000
    then sp.pbase2 + (va - sp.vbase2)
    else sp.stackp + (va - 0x7fff_4000)
  }

  predicate HasFree(t: seq<Entry>) { exists i :: 0 <= i < |t| && t[i].elo / 0x200 % 2 == 0 }

  /** The lowest entry without the valid bit became a valid, writable mapping of page to the
      frame at pa. */
  ghost predicate FilledIn(t: seq<Entry>, t': seq<Entry>, page: int, pa: int) {
    && |t'| == |t|
    && exists i ::
         && 0 <= i < |t| && t[i].elo / 0x200 % 2 == 0
         && (forall j :: 0 <= j < i ==> t[j].elo / 0x200 % 2 == 1)
         && t'[i].ehi == page && t'[i].elo == pa % 0x1_0000_0000 + 0x600
         && (forall j :: 0 <= j < |t| && j != i ==> t'[j] == t[j])
  }

  /** A fault is served exactly when some entry is free and the page is in the space. */
  lemma HandledIff(t: seq<Entry>, sp: AS, va: Word)
    ensures Handled(t, sp, va) <==> HasFree(t) && InSpace(sp, va / 4096 * 4096)
  {
    hide Valid;
    forall i | 0 <= i < |t| ensures Valid(t[i]) <==> t[i].elo / 0x200 % 2 == 1 { ValidBit(t[i]); }
  }

  /** Its page is then mapped to its place in the space. */
  lemma FaultedAt(t: seq<Entry>, sp: AS, va: Word)
    requires Loaded(sp) && Handled(t, sp, va)
    ensures FilledIn(t, Faulted(t, sp, va), va / 4096 * 4096, PlaceOf(sp, va / 4096 * 4096))
  {
    hide Valid, Loaded, Aligned;
    forall i | 0 <= i < |t| ensures Valid(t[i]) <==> t[i].elo / 0x200 % 2 == 1 { ValidBit(t[i]); }
    var i := FirstInvalid(t);
    assert t[i].elo / 0x200 % 2 == 0;
    assert forall j :: 0 <= j < |t| && j != i ==> Faulted(t, sp, va)[j] == t[j];
  }

  lemma FaultedOk(t: seq<Entry>, sp: AS, va: Word)
    requires Loaded(sp) && Coherent(t, sp)
    ensures |Faulted(t, sp, va)| == |t| && Coherent(Faulted(t, sp, va), sp)
    ensures NoDuplicates(t) && Misses(t, va) ==> NoDuplicates(Faulted(t, sp, va))
    ensures forall k: nat :: FilledTo(t, k) ==> FilledTo(Faulted(t, sp, va), if Handled(t, sp, va) then k + 1 else k)
    ensures Handled(t, sp, va) ==> !Misses(Faulted(t, sp, va), va)
  {
    hide Translate, Mapping, Valid, Frame;
    FrameAligned(va);
    if Handled(t, sp, va) {
      TranslateAligned(sp, Frame(va));
      var i, pa := FirstInvalid(t), Translate(sp, Frame(va)).value;
      MappingOk(Frame(va), pa);
      assert Faulted(t, sp, va)[i] == Mapping(Frame(va), pa);
      forall k: nat | FilledTo(t, k) ensures k == i { assert k < |t| ==> !Valid(t[k]); assert i < |t| && !Valid(t[i]); }
    }
  }

  function Flushed(): (t: seq<Entry>)
    ensures |t| == NTLB
  {
    seq(NTLB, i requires 0 <= i < NTLB => Blank(i))
  }

  // ---------------------------------------------------------------- ram_stealmem

  /** ram_stealmem in 32-bit arithmetic: the address, 0 when there is no memory, and the new
      first free address. */
  function Steal(first: Word, last: Word, npages: Word): (Word, Word) {
    var size := Wrap(npages * PAGE);
    if Wrap(first + size) > last then (0, first) else (first, Wrap(first + size))
  }

  /** A block was really taken, npages of it below the new first address, exactly when the
      request does not wrap around. */
  lemma StealIff(first: Word, last: Word, npages: Word)
    requires first <= last && Steal(first, last, npages).0 != 0
    ensures Steal(first, last, npages).1 == first + npages * PAGE && first + npages * PAGE <= last <==>
      first + npages * PAGE < W32
  {
  }

  /** A request that does not wrap takes exactly its pages, or fails for lack of memory. */
  lemma StealPlain(first: Word, last: Word, n: Word)
    requires 0 < first <= last && Aligned(first) && last + n * PAGE < W32
    ensures var (p, f) := Steal(first, last, n);
      (if first + n * PAGE <= last then p == first && f == first + n * PAGE else p == 0 && f == first) && Aligned(f)
  {
  }

  /** 2^20 pages of 4096 bytes wrap to zero bytes, so nothing is taken. */
  lemma StealWraps(first: Word, last: Word)
    requires 0 < first <= last
    ensures Steal(first, last, 0x10_0000) == (first, first)
  {
  }

  // ---------------------------------------------------------------- defining a region

  /** as_define_region in 32-bit arithmetic: the base and the number of pages. */
  function RegionOf(vaddr: Word, sz: Word): (Word, Word) {
    var s := Wrap(sz + vaddr % PAGE);
    (Frame(vaddr), Wrap(s + PAGE - 1) / PAGE)
  }

  /** as_define_region: the first two regions are recorded, a third is not. */
  function Defined(sp: AS, vaddr: Word, sz: Word): AS {
    var (base, n) := RegionOf(vaddr, sz);
    if sp.vbase1 == 0 then sp.(vbase1 := base, npages1 := n)
    else if sp.vbase2 == 0 then sp.(vbase2 := base, npages2 := n)
    else sp
  }

  /** The region covers what was asked for exactly when the sizes do not wrap, and then it has
      no spare page. */
  lemma RegionCovers(vaddr: Word, sz: Word)
    ensures var (base, n) := RegionOf(vaddr, sz);
      && Aligned(base) && base <= vaddr
      && (vaddr - base + sz <= n * PAGE <==> sz + vaddr % PAGE + PAGE - 1 < W32)
      && (sz + vaddr % PAGE + PAGE - 1 < W32 ==> n * PAGE < vaddr - base + sz + PAGE)
  {
  }

  /** as_prepare_load: three steals from the free memory, stopping at the first that fails. */
  function Prepared(sp: AS, first: Word, last: Word): (AS, Word, bool) {
    var (p1, f1) := Steal(first, last, sp.npages1);
    if p1 == 0 then (sp.(pbase1 := 0), f1, false)
    else
      var (p2, f2) := Steal(f1, last, sp.npages2);
      if p2 == 0 then (sp.(pbase1 := p1, pbase2 := 0), f2, false)
      else
        var (p3, f3) := Steal(f2, last, STACKPAGES);
        (sp.(pbase1 := p1, pbase2 := p2, stackp := p3), f3, p3 != 0)
  }

  // ---------------------------------------------------------------- runs

  /** What happens to the active space: it is replaced, given a region, given memory out of a
      free range, or faulted on. */
  datatype Event =
    | Activate(sp: AS)
    | DefineRegion(vaddr: Word, sz: Word)
    | PrepareLoad(first: Word, last: Word)
    | Fault(va: Word)

  datatype VS = VS(t: seq<Entry>, sp: AS, handled: nat)    // handled: faults served since the last activation

  /** Faults reach vm_fault only on a TLB miss; the others are the assertions of vm_fault and
      as_prepare_load. */
  predicate LegalEvent(s: VS, e: Event) {
    && (e.Fault? ==> Loaded(s.sp) && Misses(s.t, e.va))
    && (e.PrepareLoad? ==> s.sp.pbase1 == 0 && s.sp.pbase2 == 0 && s.sp.stackp == 0)
  }

  predicate Legal(s: VS, run: seq<Event>)
    decreases |run|
  {
    run == [] || (LegalEvent(s, run[0]) && Legal(StepVm(s, run[0]), run[1..]))
  }

  function StepVm(s: VS, e: Event): VS {
    match e
    case Activate(sp) => VS(Flushed(), sp, 0)
    case DefineRegion(vaddr, sz) => s.(sp := Defined(s.sp, vaddr, sz))
    case PrepareLoad(first, last) => s.(sp := Prepared(s.sp, first, last).0)
    case Fault(va) =>
      if Loaded(s.sp) then VS(Faulted(s.t, s.sp, va), s.sp, if Handled(s.t, s.sp, va) then s.handled + 1 else s.handled)
      else s
  }

  function AfterVm(s: VS, run: seq<Event>): VS
    decreases |run|
  {
    if run == [] then s else AfterVm(StepVm(s, run[0]), run[1..])
  }

  ghost predicate VmInv(s: VS) {
    && |s.t| == NTLB && Coherent(s.t, s.sp) && NoDuplicates(s.t) && FilledTo(s.t, s.handled)
    && (s.handled > 0 ==> Loaded(s.sp))
  }

  lemma FlushedOk(sp: AS)
    ensures Coherent(Flushed(), sp) && NoDuplicates(Flushed()) && FilledTo(Flushed(), 0)
  {
  }

  /** Once a fault has been served, a region that is defined is refused, and loading is barred by
      its own assertions: until the next activation the translation stays what it is. */
  lemma Frozen(s: VS, e: Event)
    requires s.handled > 0 && VmInv(s) && LegalEvent(s, e) && !e.Activate?
    ensures StepVm(s, e).sp == s.sp && !e.PrepareLoad?
  {
    hide Coherent, NoDuplicates, FilledTo, Misses, Faulted, Handled, RegionOf, Prepared;
  }

  lemma StepVmInv(s: VS, e: Event)
    requires VmInv(s) && LegalEvent(s, e)
    ensures VmInv(StepVm(s, e))
  {
    hide Translate, Faulted, Handled, Flushed, NoDuplicates, Misses, Loaded, Valid, Prepared, Defined;
    match e {
      case Activate(sp) => FlushedOk(sp);
      case Fault(va) => FaultedOk(s.t, s.sp, va);
      case _ =>
        if s.handled > 0 {
          Frozen(s, e);
        }
    }
  }

  lemma {:induction false} RunVm(s: VS, run: seq<Event>)
    requires VmInv(s) && Legal(s, run)
    ensures VmInv(AfterVm(s, run))
    decreases |run|
  {
    hide VmInv, StepVm, LegalEvent;
    if run != [] {
      StepVmInv(s, run[0]);
      RunVm(StepVm(s, run[0]), run[1..]);
    }
  }

  /** Whatever the TLB held at first: after any run that starts with an activation, every valid
      entry agrees with the active space, no page has two entries, and exactly as many entries
      are valid as faults were served, so service stops after 64 of them. */
  lemma TlbCoherence(s: VS, sp: AS, run: seq<Event>)
    requires Legal(VS(Flushed(), sp, 0), run)
    ensures var z := AfterVm(s, [Activate(sp)] + run);
      VmInv(z) && z.handled <= 64 && (forall va :: Handled(z.t, z.sp, va) ==> z.handled < 64)
  {
    hide Flushed, Coherent, NoDuplicates, Legal, Translate, Valid, Loaded;
    FlushedOk(sp);
    var s1 := VS(Flushed(), sp, 0);
    RunVm(s1, run);
    assert ([Activate(sp)] + run)[0] == Activate(sp) && ([Activate(sp)] + run)[1..] == run;
    var z := AfterVm(s1, run);
    forall va | Handled(z.t, z.sp, va)
      ensures z.handled < NTLB
    {
      assert !Valid(z.t[FirstInvalid(z.t)]);
    }
  }

  /** runprogram and load_elf: an empty space is activated, then given two regions and memory.
      If neither base is page 0, no size is 0 or wraps, and memory suffices, the first fault, at
      any address, is a legal event. */
  lemma ExecRuns(v1: Word, n1: Word, v2: Word, n2: Word, first: Word, last: Word, va: Word)
    requires v1 >= PAGE && v2 >= PAGE && 0 < n1 && 0 < n2
    requires n1 + v1 % PAGE + PAGE - 1 < W32 && n2 + v2 % PAGE + PAGE - 1 < W32
    requires 0 < first <= last && Aligned(first)
    requires var p1, p2 := RegionOf(v1, n1).1, RegionOf(v2, n2).1;
             last + (p1 + p2 + STACKPAGES) * PAGE < W32 && first + (p1 + p2 + STACKPAGES) * PAGE <= last
    ensures Legal(VS(Flushed(), AS(0, 0, 0, 0, 0, 0, 0), 0),
                  [DefineRegion(v1, n1), DefineRegion(v2, n2), PrepareLoad(first, last), Fault(va)])
  {
    hide Wrap, RegionOf, Flushed, Valid, FirstInvalid, Faulted, Handled, Translate, Steal, Legal;
    var (b1, p1) := RegionOf(v1, n1);
    var (b2, p2) := RegionOf(v2, n2);
    RegionCovers(v1, n1);
    RegionCovers(v2, n2);
    BaseNonzero(v1, n1);
    BaseNonzero(v2, n2);
    var s := VS(Flushed(), AS(0, 0, 0, 0, 0, 0, 0), 0);
    var s1 := s.(sp := AS(b1, 0, p1, 0, 0, 0, 0));
    var s2 := s.(sp := AS(b1, 0, p1, b2, 0, p2, 0));
    StealPlain(first, last, p1);
    StealPlain(first + p1 * PAGE, last, p2);
    StealPlain(first + p1 * PAGE + p2 * PAGE, last, STACKPAGES);
    var s3 := s.(sp := AS(b1, first, p1, b2, first + p1 * PAGE, p2, first + p1 * PAGE + p2 * PAGE));
    assert StepVm(s, DefineRegion(v1, n1)) == s1 && StepVm(s1, DefineRegion(v2, n2)) == s2;
    assert StepVm(s2, PrepareLoad(first, last)) == s3;
    FlushedMisses(va);
    assert LegalEvent(s3, Fault(va));
    var e1, e2, e3, e4 := DefineRegion(v1, n1), DefineRegion(v2, n2), PrepareLoad(first, last), Fault(va);
    LegalLast(s3, e4);
    LegalMore(s2, e3, [e4]);
    LegalMore(s1, e2, [e3, e4]);
    LegalMore(s, e1, [e2, e3, e4]);
    assert [e1] + [e2, e3, e4] == [e1, e2, e3, e4] && [e2] + [e3, e4] == [e2, e3, e4] && [e3] + [e4] == [e3, e4];
  }

  lemma BaseNonzero(vaddr: Word, sz: Word)
    requires vaddr >= PAGE
    ensures RegionOf(vaddr, sz).0 != 0
  {
  }

  lemma FlushedMisses(va: Word)
    ensures Misses(Flushed(), va)
  {
  }

  lemma LegalLast(s: VS, e: Event)
    requires LegalEvent(s, e)
    ensures Legal(s, [e])
  {
    assert Legal(StepVm(s, e), []);
  }

  lemma LegalMore(s: VS, e: Event, run: seq<Event>)
    requires LegalEvent(s, e) && Legal(StepVm(s, e), run)
    ensures Legal(s, [e] + run)
  {
    assert ([e] + run)[1..] == run;
  }
}
