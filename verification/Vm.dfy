/** kern/vm/addrspace.c, active part, and ram_stealmem of kern/arch/mips/mips/ram.c: faults,
    activation, regions, loading and copying of address spaces over physical memory. */
module Vm {
  import opened VmModel

  type byte = x: int | 0 <= x < 256

  const MAXRAM := 508 * 1024 * 1024

  datatype FaultType = ReadFault | WriteFault | OtherFault
  datatype Errno = EOK | EINVAL | EFAULT | ENOMEM | EUNIMP

  // ---------------------------------------------------------------- memory seen through a space

  /** The physical address of the byte at va. */
  function PhysOf(sp: AS, va: Word): Option<int> {
    match Translate(sp, Frame(va))
    case Some(p) => Some(p + va % PAGE)
    case None => None
  }

  predicate Within(p: int, npages: int, lo: int, hi: int) { lo <= p && p + npages * PAGE <= hi }

  /** The space's frames lie in [lo, hi). */
  predicate FramesIn(sp: AS, lo: int, hi: int) {
    && Within(sp.pbase1, sp.npages1, lo, hi) && Within(sp.pbase2, sp.npages2, lo, hi)
    && Within(sp.stackp, STACKPAGES, lo, hi)
  }

  /** The bytes of memory the space needs. */
  function Size(sp: AS): int { (sp.npages1 + sp.npages2 + STACKPAGES) * PAGE }

  /** The space's frames fill [lo, hi), region after region, and are page-aligned. */
  predicate FramesFrom(sp: AS, lo: int, hi: int) {
    && sp.pbase1 == lo && sp.pbase2 == lo + sp.npages1 * PAGE && sp.stackp == sp.pbase2 + sp.npages2 * PAGE
    && hi == sp.stackp + STACKPAGES * PAGE
    && Aligned(sp.pbase1) && Aligned(sp.pbase2) && Aligned(sp.stackp)
  }

  lemma PageInside(va: Word, vbase: Word, npages: Word)
    requires Aligned(vbase) && InRegion(Frame(va), vbase, npages)
    ensures Frame(va) + va % PAGE == va && 0 <= va - vbase < npages * PAGE
  {
    var k := (Frame(va) - vbase) / PAGE;
    assert Frame(va) == va / PAGE * PAGE && va == va / PAGE * PAGE + va % PAGE;
    assert Frame(va) - vbase == k * PAGE;
    assert Wrap(vbase + npages * PAGE) <= vbase + npages * PAGE;
    assert k < npages;
  }

  lemma NoWrap(x: int)
    requires 0 <= x < W32
    ensures Wrap(x) == x
  {
  }

  /** A page lies in a region exactly when its bytes do. */
  lemma PageByte(va: Word, lo: int, hi: int)
    requires lo % PAGE == 0 && hi % PAGE == 0
    ensures lo <= Frame(va) < hi <==> lo <= va < hi
  {
    var k, l, h := va / PAGE, lo / PAGE, hi / PAGE;
    assert va == k * PAGE + va % PAGE && lo == l * PAGE && hi == h * PAGE;
    assert k < h ==> k * PAGE + PAGE <= h * PAGE;
  }

  lemma EndAligned(vbase: Word, npages: Word)
    requires Aligned(vbase)
    ensures Wrap(vbase + npages * PAGE) % PAGE == 0
  {
    SumAligned(npages * PAGE, 0, vbase);
  }

  /** Exactly the bytes of the two regions and of the twelve pages below 0x80000000 are mapped. */
  lemma PhysMapped(sp: AS, va: Word)
    requires Loaded(sp)
    ensures PhysOf(sp, va).Some? <==> InSpace(sp, va)
  {
    hide Frame;
    EndAligned(sp.vbase1, sp.npages1);
    EndAligned(sp.vbase2, sp.npages2);
    PageByte(va, sp.vbase1, Wrap(sp.vbase1 + sp.npages1 * PAGE));
    PageByte(va, sp.vbase2, Wrap(sp.vbase2 + sp.npages2 * PAGE));
    PageByte(va, STACKBASE, USERSTACK);
  }

  /** Every mapped byte lies in one of the three frame ranges, at its offset in the region. */
  lemma PhysInside(sp: AS, va: Word, lo: int, hi: int)
    requires Loaded(sp) && FramesIn(sp, lo, hi) && 0 <= lo && hi < W32 && PhysOf(sp, va).Some?
    ensures lo <= PhysOf(sp, va).value < hi
    ensures PhysOf(sp, va) == Some(PlaceOf(sp, va))
  {
    PhysIn(sp, va, lo, hi);
    EndAligned(sp.vbase1, sp.npages1);
    EndAligned(sp.vbase2, sp.npages2);
    PageByte(va, sp.vbase1, Wrap(sp.vbase1 + sp.npages1 * PAGE));
    PageByte(va, sp.vbase2, Wrap(sp.vbase2 + sp.npages2 * PAGE));
  }

  lemma PhysIn(sp: AS, va: Word, lo: int, hi: int)
    requires Loaded(sp) && FramesIn(sp, lo, hi) && 0 <= lo && hi < W32 && PhysOf(sp, va).Some?
    ensures lo <= PhysOf(sp, va).value < hi
    ensures var f := Frame(va);
      PhysOf(sp, va) == Some(
        if InRegion(f, sp.vbase1, sp.npages1) then sp.pbase1 + (va - sp.vbase1)
        else if InRegion(f, sp.vbase2, sp.npages2) then sp.pbase2 + (va - sp.vbase2)
        else sp.stackp + (va - STACKBASE))
  {
    hide Wrap, Frame, InRegion;
    var f := Frame(va);
    if InRegion(f, sp.vbase1, sp.npages1) {
      PageInside(va, sp.vbase1, sp.npages1);
      NoWrap(f - sp.vbase1 + sp.pbase1);
    } else if InRegion(f, sp.vbase2, sp.npages2) {
      PageInside(va, sp.vbase2, sp.npages2);
      NoWrap(f - sp.vbase2 + sp.pbase2);
    } else {
      StackInside(va);
      NoWrap(f - STACKBASE + sp.stackp);
    }
  }

  lemma StackInside(va: Word)
    requires STACKBASE <= Frame(va) < USERSTACK
    ensures Frame(va) + va % PAGE == va && 0 <= va - STACKBASE < STACKPAGES * PAGE && Frame(va) <= va
  {
  }

  /** Spaces on disjoint frames do not see each other's stores. */
  lemma Isolated(a: AS, b: AS, lo: int, mid: int, hi: int, va: Word, vb: Word)
    requires Loaded(a) && Loaded(b) && FramesIn(a, lo, mid) && FramesIn(b, mid, hi) && 0 <= lo && mid < W32 && hi < W32
    requires PhysOf(a, va).Some? && PhysOf(b, vb).Some?
    ensures PhysOf(a, va) != PhysOf(b, vb)
  {
    hide PhysOf, Loaded, FramesIn;
    PhysIn(a, va, lo, mid);
    PhysIn(b, vb, mid, hi);
  }

  /** The spaces have the same regions. */
  predicate SameRegions(a: AS, b: AS) {
    a.vbase1 == b.vbase1 && a.npages1 == b.npages1 && a.vbase2 == b.vbase2 && a.npages2 == b.npages2
  }

  /** m' has at q the n pages m has at p. */
  ghost predicate Copied(m: seq<byte>, m': seq<byte>, p: int, q: int, n: int) {
    forall i :: 0 <= i < n * PAGE ==> ByteCopied(m, m', p, q, i)
  }

  predicate ByteCopied(m: seq<byte>, m': seq<byte>, p: int, q: int, i: int) {
    0 <= p + i < |m| && 0 <= q + i < |m'| && m'[q + i] == m[p + i]
  }

  /** The same addresses are in both spaces, and each reads in m' through b what it reads in m
      through a. */
  predicate SameByte(a: AS, b: AS, m: seq<byte>, m': seq<byte>, va: Word) {
    && (InSpace(a, va) <==> InSpace(b, va))
    && (InSpace(a, va) ==>
          var x, y := PlaceOf(a, va), PlaceOf(b, va);
          0 <= x < |m| && 0 <= y < |m'| && m'[y] == m[x])
  }

  /** A space whose frames are copies reads the same byte at every address. */
  lemma CopyReads(a: AS, b: AS, m: seq<byte>, m': seq<byte>, hi: int, va: Word)
    requires Loaded(a) && Loaded(b) && FramesIn(a, 0, hi) && FramesIn(b, 0, hi) && hi < W32 && SameRegions(a, b)
    requires Copied(m, m', a.pbase1, b.pbase1, a.npages1) && Copied(m, m', a.pbase2, b.pbase2, a.npages2)
    requires Copied(m, m', a.stackp, b.stackp, STACKPAGES)
    ensures SameByte(a, b, m, m', va)
  {
    if InSpace(a, va) {
      if a.vbase1 <= va < Wrap(a.vbase1 + a.npages1 * PAGE) {
        WrapBelow(a.vbase1 + a.npages1 * PAGE);
        assert ByteCopied(m, m', a.pbase1, b.pbase1, va - a.vbase1);
      } else if a.vbase2 <= va < Wrap(a.vbase2 + a.npages2 * PAGE) {
        WrapBelow(a.vbase2 + a.npages2 * PAGE);
        assert ByteCopied(m, m', a.pbase2, b.pbase2, va - a.vbase2);
      } else {
        assert ByteCopied(m, m', a.stackp, b.stackp, va - STACKBASE);
      }
    }
  }

  lemma WrapBelow(x: int)
    requires 0 <= x
    ensures Wrap(x) <= x
  {
  }

  // ---------------------------------------------------------------- loading

  /** When the sizes do not wrap, the frames given are new, in memory, apart from each other and
      page-aligned; loading fails only for lack of memory. */
  lemma PreparedFresh(sp: AS, first: Word, last: Word)
    requires 0 < first <= last && Aligned(first) && last + Size(sp) < W32
    ensures var (sp', first', ok) := Prepared(sp, first, last);
      && first <= first' <= last && Aligned(first') && SameRegions(sp, sp')
      && (ok <==> first + Size(sp) <= last)
      && (ok ==> FramesFrom(sp', first, first') && FramesIn(sp', first, first'))
  {
    hide Wrap;
    StealPlain(first, last, sp.npages1);
    var f1 := Steal(first, last, sp.npages1).1;
    StealPlain(f1, last, sp.npages2);
    var f2 := Steal(f1, last, sp.npages2).1;
    StealPlain(f2, last, STACKPAGES);
  }

  // ---------------------------------------------------------------- objects

  class AddrSpace {
    var vbase1: Word
    var pbase1: Word
    var npages1: Word
    var vbase2: Word
    var pbase2: Word
    var npages2: Word
    var stackp: Word

    function View(): AS
      reads this
    {
      AS(vbase1, pbase1, npages1, vbase2, pbase2, npages2, stackp)
    }

    /** as_create. */
    constructor ()
      ensures View() == AS(0, 0, 0, 0, 0, 0, 0)
    {
      vbase1, pbase1, npages1, vbase2, pbase2, npages2, stackp := 0, 0, 0, 0, 0, 0, 0;
    }

    /** as_define_region: the first two regions are recorded, a third is refused. */
    method DefineRegion(vaddr: Word, sz: Word) returns (err: Errno)
      modifies this
      ensures err == if old(vbase1) == 0 || old(vbase2) == 0 then EOK else EUNIMP
      ensures View() == Defined(old(View()), vaddr, sz)
      ensures old(Loaded(View())) ==> err == EUNIMP && View() == old(View())
      // unless the sizes wrap around, the region is the pages that vaddr up to vaddr + sz touch
      ensures sz + vaddr % 4096 + 4095 < 0x1_0000_0000 ==>
                var lo, n := vaddr / 4096 * 4096, (vaddr % 4096 + sz + 4095) / 4096;
                View() == if old(vbase1) == 0 then old(View()).(vbase1 := lo, npages1 := n)
                          else if old(vbase2) == 0 then old(View()).(vbase2 := lo, npages2 := n)
                          else old(View())
    {
      var s := Wrap(sz + vaddr % PAGE);
      var base := Frame(vaddr);
      s := Wrap(s + PAGE - 1) / PAGE * PAGE;
      var npages := s / PAGE;
      if vbase1 == 0 {
        vbase1, npages1 := base, npages;
        return EOK;
      }
      if vbase2 == 0 {
        vbase2, npages2 := base, npages;
        return EOK;
      }
      return EUNIMP;
    }
  }

  class Machine {
    const tlb: array<Entry>
    const mem: array<byte>
    var firstpaddr: Word
    var lastpaddr: Word

    ghost predicate Ok()
      reads this, tlb
    {
      tlb.Length == NTLB && 0 < firstpaddr <= lastpaddr <= MAXRAM && lastpaddr <= mem.Length && Aligned(firstpaddr)
    }

    /** ram_stealmem: unless the request wraps around, it takes exactly npages from the bottom of
        the free memory, or nothing when there are fewer. */
    method StealMem(npages: Word) returns (pa: Word)
      modifies this`firstpaddr
      ensures (pa, firstpaddr) == Steal(old(firstpaddr), lastpaddr, npages)
      ensures pa == 0 || pa == old(firstpaddr)
      ensures old(Ok()) && MAXRAM + npages * PAGE < W32 ==>
                && Ok() && (pa == 0 <==> old(firstpaddr) + npages * PAGE > lastpaddr)
                && firstpaddr == old(firstpaddr) + if pa == 0 then 0 else npages * PAGE
    {
      ghost var first := firstpaddr;
      if Ok() && MAXRAM + npages * PAGE < W32 {
        StealPlain(first, lastpaddr, npages);
      }
      var size := Wrap(npages * PAGE);
      if Wrap(firstpaddr + size) > lastpaddr {
        return 0;
      }
      pa := firstpaddr;
      firstpaddr := Wrap(firstpaddr + size);
    }

    /** as_activate: every entry is invalidated. */
    method Activate()
      requires tlb.Length == NTLB
      modifies tlb
      ensures tlb[..] == Flushed() && forall sp :: Coherent(tlb[..], sp)
      // each with a page of its own outside the user's addresses
      ensures forall i :: 0 <= i < 64 ==> tlb[i] == Entry(0x8000_0000 + 4096 * i, 0)
    {
      var i := 0;
      while i < NTLB
        invariant 0 <= i <= NTLB && forall j :: 0 <= j < i ==> tlb[j] == Blank(j)
      {
        tlb[i] := Blank(i);
        i := i + 1;
      }
      forall sp ensures Coherent(tlb[..], sp) { FlushedOk(sp); }
    }

    /** The end of vm_fault: e goes where the first invalid entry is. */
    method Fill(e: Entry) returns (ok: bool)
      requires tlb.Length == NTLB
      modifies tlb
      ensures ok <==> FirstInvalid(old(tlb[..])) < |old(tlb[..])|
      ensures tlb[..] == if ok then old(tlb[..])[FirstInvalid(old(tlb[..])) := e] else old(tlb[..])
    {
      hide VmModel.Valid;
      ghost var t := tlb[..];
      var i := 0;
      while i < NTLB
        invariant 0 <= i <= NTLB && tlb[..] == t && i <= FirstInvalid(t)
      {
        if VmModel.Valid(tlb[i]) {
          i := i + 1;
          continue;
        }
        assert i == FirstInvalid(t);
        tlb[i] := e;
        return true;
      }
      return false;
    }

    /** vm_fault for the current space, null when the thread has none. A read-only fault cannot
        happen, since every page is mapped read-write. */
    method Fault(kind: FaultType, faultaddress: Word, sp: AddrSpace?) returns (err: Errno)
      requires tlb.Length == NTLB && (sp != null && kind != OtherFault ==> Loaded(sp.View()))
      modifies tlb
      ensures err == EINVAL <==> kind == OtherFault
      ensures err == EOK <==> kind != OtherFault && sp != null && Handled(old(tlb[..]), sp.View(), faultaddress)
      ensures err == EOK || err == EINVAL || err == EFAULT
      ensures tlb[..] == if err == EOK then Faulted(old(tlb[..]), sp.View(), faultaddress) else old(tlb[..])
      // a page of one of the regions, and a free entry, is all it takes
      ensures kind != OtherFault && sp != null ==>
                (err == EOK <==> HasFree(old(tlb[..])) && InSpace(sp.View(), faultaddress / 4096 * 4096))
      // the lowest free entry then maps the page to its place in the frames of its region
      ensures err == EOK ==>
                var page := faultaddress / 4096 * 4096;
                FilledIn(old(tlb[..]), tlb[..], page, PlaceOf(sp.View(), page))
      ensures sp != null && old(Coherent(tlb[..], sp.View())) ==> Coherent(tlb[..], sp.View())
    {
      hide Wrap, Frame, Mapping, Coherent, VmModel.Valid, FirstInvalid, Loaded, InSpace, PlaceOf, FilledIn, HasFree;
      var va := Frame(faultaddress);
      if kind == OtherFault {
        return EINVAL;
      }
      if sp == null {
        return EFAULT;
      }
      ghost var s, t := sp.View(), tlb[..];
      FrameAligned(faultaddress);
      if Coherent(t, s) {
        FaultedOk(t, s, faultaddress);
      }
      HandledIff(t, s, faultaddress);
      if Handled(t, s, faultaddress) {
        FaultedAt(t, s, faultaddress);
      }
      var paddr: Word;
      if InRegion(va, sp.vbase1, sp.npages1) {
        paddr := Wrap(va - sp.vbase1 + sp.pbase1);
      } else if InRegion(va, sp.vbase2, sp.npages2) {
        paddr := Wrap(va - sp.vbase2 + sp.pbase2);
      } else if STACKBASE <= va < USERSTACK {
        paddr := Wrap(va - STACKBASE + sp.stackp);
      } else {
        return EFAULT;
      }
      assert Translate(s, va) == Some(paddr);
      TranslateAligned(s, va);
      var ok := Fill(Mapping(va, paddr));
      return if ok then EOK else EFAULT;
    }

    /** as_prepare_load: unless the sizes wrap around, the space gets frames of its own, taken one
        after the other from the free memory, or there is not enough of it. */
    method PrepareLoad(sp: AddrSpace) returns (err: Errno)
      requires sp.pbase1 == 0 && sp.pbase2 == 0 && sp.stackp == 0
      modifies sp, this`firstpaddr
      ensures (sp.View(), firstpaddr, err == EOK) == Prepared(old(sp.View()), old(firstpaddr), lastpaddr)
      ensures err == EOK || err == ENOMEM
      ensures old(Ok()) && MAXRAM + Size(old(sp.View())) < W32 ==>
                && Ok() && SameRegions(old(sp.View()), sp.View())
                && (err == EOK <==> old(firstpaddr) + Size(old(sp.View())) <= lastpaddr)
                && (err == EOK ==> FramesFrom(sp.View(), old(firstpaddr), firstpaddr))
    {
      hide Steal;
      if Ok() && MAXRAM + Size(sp.View()) < W32 {
        PreparedFresh(sp.View(), firstpaddr, lastpaddr);
      }
      sp.pbase1 := StealMem(sp.npages1);
      if sp.pbase1 == 0 {
        return ENOMEM;
      }
      sp.pbase2 := StealMem(sp.npages2);
      if sp.pbase2 == 0 {
        return ENOMEM;
      }
      sp.stackp := StealMem(STACKPAGES);
      if sp.stackp == 0 {
        return ENOMEM;
      }
      return EOK;
    }

    /** memmove between two physical ranges that do not overlap. */
    method Move(dst: int, src: int, n: int)
      requires 0 <= src && 0 <= dst && 0 <= n && src + n <= mem.Length && dst + n <= mem.Length
      requires src + n <= dst || dst + n <= src
      modifies mem
      ensures forall a :: 0 <= a < mem.Length && !(dst <= a < dst + n) ==> mem[a] == old(mem[a])
      ensures forall i :: dst <= i < dst + n ==> mem[i] == old(mem[i - dst + src])
    {
      forall i | 0 <= i < n {
        mem[dst + i] := mem[src + i];
      }
    }

    /** The three memmoves of as_copy, into frames above all those of the parent. */
    method CopyFrames(p: AS, q: AS, ghost mid: int, ghost hi: int)
      requires FramesIn(p, 0, mid) && SameRegions(p, q) && hi <= mem.Length
      requires q.pbase1 == mid && q.pbase2 == mid + p.npages1 * PAGE && q.stackp == q.pbase2 + p.npages2 * PAGE
      requires hi == q.stackp + STACKPAGES * PAGE
      modifies mem
      ensures forall a :: 0 <= a < mid ==> mem[a] == old(mem[a])
      ensures Copied(old(mem[..]), mem[..], p.pbase1, q.pbase1, p.npages1)
      ensures Copied(old(mem[..]), mem[..], p.pbase2, q.pbase2, p.npages2)
      ensures Copied(old(mem[..]), mem[..], p.stackp, q.stackp, STACKPAGES)
    {
      Move(q.pbase1, p.pbase1, p.npages1 * PAGE);
      Move(q.pbase2, p.pbase2, p.npages2 * PAGE);
      Move(q.stackp, p.stackp, STACKPAGES * PAGE);
    }

    /** as_copy of a loaded space whose frames came from this memory. */
    method Copy(old_: AddrSpace) returns (err: Errno, new_: AddrSpace?)
      requires Ok() && Loaded(old_.View()) && FramesIn(old_.View(), 0, firstpaddr)
      modifies this`firstpaddr, mem
      ensures Ok() && (err == EOK || err == ENOMEM) && (err == EOK <==> new_ != null)
      ensures err == EOK <==> old(firstpaddr) + Size(old_.View()) <= lastpaddr
      // the parent, and everything allocated before, keeps its memory
      ensures forall a :: 0 <= a < old(firstpaddr) ==> mem[a] == old(mem[a])
      // the child has the parent's regions, on frames allocated by this call
      ensures err == EOK ==> fresh(new_) && Loaded(new_.View()) && SameRegions(old_.View(), new_.View())
      ensures err == EOK ==> FramesIn(new_.View(), old(firstpaddr), firstpaddr)
      // and reads the parent's byte at every address of the regions and of the stack
      ensures err == EOK ==> forall va: Word :: SameByte(old_.View(), new_.View(), old(mem[..]), mem[..], va)
    {
      hide Loaded, Prepared, Steal, Wrap, Copied, SameByte;
      ghost var p, first, m := old_.View(), firstpaddr, mem[..];
      var n := new AddrSpace();
      n.vbase1, n.npages1, n.vbase2, n.npages2 := old_.vbase1, old_.npages1, old_.vbase2, old_.npages2;
      PreparedFresh(n.View(), firstpaddr, lastpaddr);
      err := PrepareLoad(n);
      if err != EOK {
        return err, null;
      }
      CopyFrames(old_.View(), n.View(), first, firstpaddr);
      new_ := n;
      ghost var q := n.View();
      LoadedToo(p, q);
      forall va: Word
        ensures SameByte(p, q, m, mem[..], va)
      {
        CopyReads(p, q, m, mem[..], firstpaddr, va);
      }
    }
  }

  lemma LoadedToo(a: AS, b: AS)
    requires Loaded(a) && SameRegions(a, b) && b.pbase1 != 0 && b.pbase2 != 0 && b.stackp != 0
    requires Aligned(b.pbase1) && Aligned(b.pbase2) && Aligned(b.stackp)
    ensures Loaded(b)
  {
  }
}
