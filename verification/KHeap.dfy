/** kern/lib/kheap.c: kmalloc and kfree over the pageref table, its linked lists and the free
    lists threaded through the pages. */
module KHeap {
  import opened KHeapModel

  /** One word of pagerefs_inuse, low bit first. */
  type Bits = b: seq<bool> | |b| == 32 witness seq(32, i => false)

  predicate BitAt(ws: seq<Bits>, i: nat)
    requires i < 32 * |ws|
  {
    ws[i / 32][i % 32]
  }

  ghost function UsedBits(ws: seq<Bits>): set<nat> { set i | 0 <= i < 32 * |ws| && BitAt(ws, i) }

  lemma SetBitAt(ws: seq<Bits>, p: nat, on: bool)
    requires p < 32 * |ws|
    ensures UsedBits(ws[p / 32 := ws[p / 32][p % 32 := on]]) == if on then UsedBits(ws) + {p} else UsedBits(ws) - {p}
  {
    var ws' := ws[p / 32 := ws[p / 32][p % 32 := on]];
    forall i | 0 <= i < 32 * |ws|
      ensures BitAt(ws', i) == if i == p then on else BitAt(ws, i)
    {
      assert i == 32 * (i / 32) + i % 32 && p == 32 * (p / 32) + p % 32;
    }
  }

  const FULL: Bits := seq(32, i => true)

  lemma FullWord(ws: seq<Bits>, i: nat)
    requires i < |ws|
    ensures ws[i] == FULL <==> forall q :: 32 * i <= q < 32 * i + 32 ==> q in UsedBits(ws)
  {
    if ws[i] == FULL {
      forall q | 32 * i <= q < 32 * i + 32 ensures q in UsedBits(ws) { assert q / 32 == i && BitAt(ws, q); }
    } else {
      var j :| 0 <= j < 32 && !ws[i][j];
      assert (32 * i + j) / 32 == i && (32 * i + j) % 32 == j && !BitAt(ws, 32 * i + j);
      assert 32 * i + j !in UsedBits(ws);
    }
  }

  class KHeap {
    const refs: array<Ref>            // pagerefs
    const inuse: array<Bits>          // pagerefs_inuse
    const sizebases: array<nat>
    var allbase: nat
    const mem: array<nat>             // kernel memory, by words
    ghost var all: seq<nat>
    ghost var free: seq<seq<nat>>
    ghost var big: map<nat, nat>

    ghost predicate Shape() {
      refs.Length == NREFS && inuse.Length == 8 && sizebases.Length == NSIZES && sizebases != mem
    }

    ghost function View(): KS
      reads this, refs, inuse, sizebases, mem
    {
      KS(refs[..], sizebases[..], allbase, UsedBits(inuse[..]), mem[..], all, free, big)
    }

    ghost predicate Valid()
      reads this, refs, inuse, sizebases, mem
    {
      Shape() && Inv(View())
    }

    /** The BSS at boot: no pageref in use, all lists empty. */
    constructor (m: array<nat>)
      ensures Valid() && mem == m && all == [] && big == map[]
      ensures fresh(refs) && fresh(inuse) && fresh(sizebases)
      ensures forall a: nat, z: nat :: !Live(View(), a, z)
    {
      hide PageAddr, BlockType, FreeList;
      refs := new Ref[NREFS](i => Ref(NIL, NIL, 0, 0, 0));
      inuse := new Bits[8](i => seq(32, j => false));
      sizebases := new nat[NSIZES](i => NIL);
      allbase, mem := NIL, m;
      all, free, big := [], seq(NREFS, i => []), map[];
      new;
      assert UsedBits(inuse[..]) == {};
    }

    /** allocpageref: the lowest pageref whose bit is clear. */
    method AllocPageref() returns (p: nat)
      requires Shape()
      modifies inuse
      ensures p == NIL || p < NREFS
      ensures p == NIL ==> inuse[..] == old(inuse[..]) && forall i :: 0 <= i < NREFS ==> i in UsedBits(inuse[..])
      ensures p != NIL ==> p !in old(UsedBits(inuse[..])) && (forall i :: 0 <= i < p ==> i in old(UsedBits(inuse[..])))
      ensures p != NIL ==> UsedBits(inuse[..]) == old(UsedBits(inuse[..])) + {p}
    {
      var i := 0;
      while i < 8
        invariant 0 <= i <= 8 && inuse[..] == old(inuse[..])
        invariant forall q :: 0 <= q < 32 * i ==> q in UsedBits(inuse[..])
      {
        FullWord(inuse[..], i);
        if inuse[i] == FULL {
          i := i + 1;
          continue;
        }
        var j := 0;
        while j < 32
          invariant 0 <= j <= 32 && inuse[..] == old(inuse[..])
          invariant forall q :: 0 <= q < 32 * i + j ==> q in UsedBits(inuse[..])
        {
          if !inuse[i][j] {
            p := 32 * i + j;
            assert p / 32 == i && p % 32 == j && !BitAt(inuse[..], p);
            SetBitAt(inuse[..], p, true);
            inuse[i] := inuse[i][j := true];
            assert inuse[..] == old(inuse[..])[p / 32 := old(inuse[..])[p / 32][p % 32 := true]];
            return;
          }
          assert BitAt(inuse[..], 32 * i + j);
          j := j + 1;
        }
        assert false;
      }
      p := NIL;
    }

    method FreePageref(p: nat)
      requires Shape() && p < NREFS && p in UsedBits(inuse[..])
      modifies inuse
      ensures UsedBits(inuse[..]) == old(UsedBits(inuse[..])) - {p}
    {
      var i, j := p / 32, p % 32;
      assert BitAt(inuse[..], p);
      if !inuse[i][j] {
        assert false;
      }
      SetBitAt(inuse[..], p, false);
      inuse[i] := inuse[i][j := false];
      assert inuse[..] == old(inuse[..])[p / 32 := old(inuse[..])[p / 32][p % 32 := false]];
    }

    /** The scan of sizebases[t] for a page with a free block. */
    method FindFree(t: nat) returns (pr: nat)
      requires Valid() && t < NSIZES
      ensures pr == NIL ==> forall i :: i in all && TypeOf(View(), i) == t && i < |free| ==> free[i] == []
      ensures pr != NIL ==> pr in all && pr < |free| && TypeOf(View(), pr) == t && free[pr] != []
    {
      hide Filter, PageAddr, BlockType, FreeList, Apart, UsedBits, Size, PerPage;
      ghost var s := View();
      ghost var list := Filter(all, s.rs, t);
      assert Chain(s.rs, Same, sizebases[t], list);
      forall i: nat ensures i in list <==> i in all && i < NREFS && TypeOf(s, i) == t { FilterMember(all, s.rs, t, i); }
      pr := sizebases[t];
      ghost var k := 0;
      while pr != NIL
        invariant k <= |list| && pr == Nth(list, k)
        invariant forall j :: 0 <= j < k ==> list[j] < |free| && free[list[j]] == []
        decreases |list| - k
      {
        assert k < |list| && pr == list[k] && pr in list;
        assert Linked(s.rs, Same, list, k);
        if BlockType(refs[pr].pab) != t {
          assert false;
        }
        assert PageOk(s, pr);
        assert refs[pr].nfree == |free[pr]| by { CountOk(s, pr); }
        if refs[pr].nfree > 0 {
          return;
        }
        pr := refs[pr].nextSame;
        k := k + 1;
      }
      NthNil(list, k);
    }

    /** doalloc: take the first free block of pr's page. */
    method TakeBlock(pr: nat) returns (r: nat)
      requires Shape() && Core(View()) && pr in all && pr < NREFS && free[pr] != []
      modifies this`free, refs
      ensures View() == Pop(old(View()), pr) && r == old(free)[pr][0]
    {
      hide Filter, Chain, PageAddr, BlockType, Apart, UsedBits, Size, PerPage, Distinct;
      ghost var s := View();
      ghost var fl := free[pr];
      assert PageOk(s, pr) && FreeLinked(s.m, fl, 0) && fl[0] in fl;
      BlockBounds(PageOf(s, pr), TypeOf(s, pr), fl[0]);
      assert |fl| > 1 ==> fl[1] in fl;
      var page := PageAddr(refs[pr].pab);
      var fla := page + refs[pr].off;
      r := fla;
      var next := mem[fla / 4];
      if |fl| > 1 {
        BlockBounds(page, TypeOf(s, pr), fl[1]);
      }
      refs[pr] := refs[pr].(nfree := refs[pr].nfree - 1);
      if next != 0 {
        if !(refs[pr].nfree > 0 && page <= next && next - page < PAGE) {
          assert false;
        }
        refs[pr] := refs[pr].(off := next - page);
      } else {
        if refs[pr].nfree != 0 {
          assert false;
        }
        refs[pr] := refs[pr].(off := INVALID);
      }
      free := free[pr := fl[1..]];
      assert refs[..] == Pop(s, pr).rs;
    }

    /** Threading the free list of a fresh page. */
    method Thread(page: nat, t: nat)
      requires t < NSIZES && page % PAGE == 0 && page + PAGE <= 4 * mem.Length
      modifies mem
      ensures Threaded(old(mem[..]), mem[..], page, t)
    {
      hide Size, PerPage, Fresh, At, Threaded;
      AtBounds(page, t, 0);
      mem[page / 4] := 0;
      var i := 1;
      while i < PerPage(t)
        invariant 1 <= i <= PerPage(t)
        invariant forall x :: 0 <= x < i ==> WordAt(mem[..], page, t, x)
        invariant forall w :: 0 <= w < mem.Length && !(page <= 4 * w < page + PAGE) ==> mem[w] == old(mem[w])
      {
        AtBounds(page, t, i);
        ThreadStep(mem[..], page, t, i);
        ghost var m := mem[..];
        mem[At(page, t, i) / 4] := At(page, t, i - 1);
        assert mem[..] == m[At(page, t, i) / 4 := At(page, t, i - 1)];
        i := i + 1;
      }
      ThreadDone(old(mem[..]), mem[..], page, t);
    }

    /** A new page of type t, put at the head of both lists. */
    method AddPage(pr: nat, page: nat, t: nat)
      requires Shape() && Core(View().(used := View().used - {pr})) && pr !in all && pr < NREFS && t < NSIZES
      requires Unallocated(View(), page, 1) && pr in UsedBits(inuse[..])
      modifies this`all, this`free, this`allbase, refs, sizebases, mem
      ensures Threaded(old(mem[..]), mem[..], page, t)
      ensures View() == NewPage(old(View()).(used := old(View()).used - {pr}), pr, page, t, mem[..])
    {
      hide Filter, Chain, PageAddr, BlockType, Apart, UsedBits, Size, PerPage, Distinct, Fresh, FreeList, FreeLinked;
      ghost var s := View();
      assert Sizes(s);
      refs[pr] := refs[pr].(pab := page + t, nfree := PerPage(t));
      Thread(page, t);
      refs[pr] := refs[pr].(off := (PerPage(t) - 1) * Size(t));
      refs[pr] := refs[pr].(nextSame := sizebases[t]);
      sizebases[t] := pr;
      refs[pr] := refs[pr].(nextAll := allbase);
      allbase := pr;
      all := [pr] + all;
      free := free[pr := Fresh(page, Size(t), PerPage(t))];
      assert refs[..] == s.rs[pr := Ref(s.sb[t], s.ab, page + t, (PerPage(t) - 1) * Size(t), PerPage(t))];
      assert sizebases[..] == s.sb[t := pr];
      assert s.used - {pr} + {pr} == s.used;
    }

    /** subpage_kmalloc. page is what alloc_kpages would answer, 0 when it has no page. */
    method SubpageKmalloc(sz: nat, page: nat) returns (r: nat, ghost t: nat)
      requires Valid() && sz <= 2048 && (page == 0 || Unallocated(View(), page, 1))
      modifies this`all, this`free, this`allbase, refs, inuse, sizebases, mem
      ensures Valid() && Kept(old(View()), View())
      ensures Fits(sz, t)
      ensures r != 0 ==> Gained(old(View()), View(), r, Size(t))
      ensures r == 0 ==> View() == old(View())
      ensures r == 0 <==> Exhausted(old(View()), t) && (page == 0 || NoPageref(old(View())))
      ensures NewPages(old(View()), View(), page)
    {
      hide NewPages;
      hide Filter, Chain, PageAddr, BlockType, Apart, UsedBits, Size, PerPage, Distinct, Fresh, FreeList;
      hide FreeLinked, Gained, Kept, Unallocated, Pop, NewPage;
      ghost var s := View();
      PagesSame(s, s, page);
      var blktype := FindType(sz);
      t := blktype;
      var pr := FindFree(blktype);
      if pr != NIL {
        assert pr < NREFS;
        TookBlock(s, pr);
        PopPages(s, pr, page);
        r := TakeBlock(pr);
        return;
      }
      KeptRefl(s, s);
      pr := AllocPageref();
      if pr == NIL {
        r := 0;
        return;
      }
      if page == 0 {
        FreePageref(pr);
        assert UsedBits(inuse[..]) == s.used;
        r := 0;
        return;
      }
      assert View().(used := View().used - {pr}) == s;
      assert Unallocated(View(), page, 1) by { UnallocatedSame(s, View(), page, 1); }
      AddPage(pr, page, blktype);
      TookPage(s, pr, page, t, mem[..]);
      PageNonzero(s, page);
      PagesAdded(s, pr, page, t, mem[..]);
      r := TakeBlock(pr);
    }

    /** The search of the list of all pages for the one ptr is on. */
    method FindPage(ptr: nat) returns (pr: nat)
      requires Valid()
      ensures pr == NIL ==> forall i :: i in all ==> !(PageOf(View(), i) <= ptr < PageOf(View(), i) + PAGE)
      ensures pr != NIL ==> pr in all && pr < NREFS && PageOf(View(), pr) <= ptr < PageOf(View(), pr) + PAGE
    {
      hide Filter, PageAddr, BlockType, FreeList, Apart, UsedBits, Size, PerPage;
      ghost var s := View();
      pr := allbase;
      ghost var k := 0;
      while pr != NIL
        invariant k <= |all| && pr == Nth(all, k)
        invariant forall j :: 0 <= j < k ==> !(PageOf(s, all[j]) <= ptr < PageOf(s, all[j]) + PAGE)
        decreases |all| - k
      {
        assert k < |all| && pr == all[k] && pr in all;
        assert Linked(s.rs, All, all, k);
        assert PageOk(s, pr);
        var page := PageAddr(refs[pr].pab);
        if BlockType(refs[pr].pab) >= NSIZES {
          assert false;
        }
        if page <= ptr < page + PAGE {
          return;
        }
        pr := refs[pr].nextAll;
        k := k + 1;
      }
      assert forall j :: 0 <= j < |all| ==> all[j] in all;
      NthNil(all, k);
    }

    /** fill_deadbeef. */
    method Fill(a: nat, z: nat)
      requires a % 4 == 0 && z % 4 == 0 && a + z <= 4 * mem.Length
      modifies mem
      ensures forall w :: 0 <= w < mem.Length && !(a <= 4 * w < a + z) ==> mem[w] == old(mem[w])
      ensures forall w :: 0 <= w < mem.Length && a <= 4 * w < a + z ==> mem[w] == 0xdead_beef
    {
      var i := 0;
      while i < z / 4
        invariant 0 <= i <= z / 4
        invariant forall w :: 0 <= w < mem.Length && !(a <= 4 * w < a + 4 * i) ==> mem[w] == old(mem[w])
        invariant forall w :: 0 <= w < mem.Length && a <= 4 * w < a + 4 * i ==> mem[w] == 0xdead_beef
      {
        mem[a / 4 + i] := 0xdead_beef;
        i := i + 1;
      }
    }

    /** One of the two loops of remove_lists: unlink pr, giving the new head. */
    method Unlink(which: Which, head: nat, pr: nat, ghost list: seq<nat>) returns (head': nat)
      requires refs.Length == NREFS && Chain(refs[..], which, head, list) && Distinct(list) && pr in list
      requires forall j :: 0 <= j < |list| ==> list[j] < NREFS
      modifies refs
      ensures Chain(refs[..], which, head', Without(list, pr))
      ensures forall j :: 0 <= j < NREFS ==> refs[j] == SetLink(old(refs[j]), which, Link(refs[j], which))
      ensures forall j :: 0 <= j < NREFS && j !in list ==> refs[j] == old(refs[j])
    {
      hide Without;
      ghost var rs := refs[..];
      forall j | 0 <= j < NREFS
        ensures rs[j] == SetLink(rs[j], which, Link(rs[j], which))
      {
        SetLinkSelf(rs[j], which, 0);
      }
      ghost var k := 0;
      var prev, cur := NIL, head;
      while cur != NIL
        invariant k < |list| && cur == list[k] && pr !in list[..k] && refs[..] == rs
        invariant if k == 0 then prev == NIL else prev == list[k - 1]
        decreases |list| - k
      {
        assert Linked(rs, which, list, k);
        ChainCut(rs, which, head, list, k);
        if cur == pr {
          WithoutAt(list, k);
          if prev == NIL {
            assert list[..0] + list[1..] == list[1..];
            head' := Link(refs[pr], which);
          } else {
            SetLinkSelf(refs[prev], which, Link(refs[pr], which));
            refs[prev] := SetLink(refs[prev], which, Link(refs[pr], which));
            head' := head;
            assert refs[..] == rs[list[k - 1] := SetLink(rs[list[k - 1]], which, Link(rs[list[k]], which))];
          }
          return;
        }
        assert list[..k + 1] == list[..k] + [list[k]];
        MoreLeft(list, k, pr);
        prev := cur;
        cur := Link(refs[cur], which);
        k := k + 1;
      }
      assert false;
    }

    /** The page of pr is wholly free: take it off the lists and give up the page and its bit. */
    method DropPage(pr: nat)
      requires Shape() && Core(View()) && pr in all && pr < NREFS
      modifies this`all, this`allbase, refs, inuse, sizebases
      ensures Drops(old(View()), View(), pr)
    {
      hide Filter, Chain, PageAddr, BlockType, Apart, UsedBits, Size, PerPage, Distinct, FreeList, Without, Drops;
      ghost var s := View();
      assert PageOk(s, pr);
      var t := BlockType(refs[pr].pab);
      ghost var list := Filter(all, s.rs, t);
      FilterMember(all, s.rs, t, pr);
      FilterDistinct(all, s.rs, t);
      forall j | 0 <= j < |list|
        ensures list[j] < NREFS
      {
        assert list[j] in list;
        FilterMember(all, s.rs, t, list[j]);
      }
      var h := Unlink(Same, sizebases[t], pr, list);
      sizebases[t] := h;
      ghost var rs1 := refs[..];
      ChainFrame(s.rs, rs1, All, allbase, all);
      assert forall j :: 0 <= j < |all| ==> all[j] in all;
      var h' := Unlink(All, allbase, pr, all);
      allbase := h';
      FreePageref(pr);
      all := Without(all, pr);
      assert sizebases[..] == s.sb[t := h];
      DropsIf(s, rs1, View(), pr);
    }

    /** Filling a block of pr's page and putting it on the page's free list. */
    method PutBlock(ptr: nat, pr: nat)
      requires Shape() && Core(View()) && LiveIn(View(), pr, ptr) && pr < NREFS && TypeOf(View(), pr) < NSIZES
      requires PageOf(View(), pr) <= ptr
      modifies this`free, refs, mem
      ensures View() == Push(old(View()), pr, ptr, mem[..])
      ensures Filled(old(mem[..]), mem[..], ptr, Size(TypeOf(old(View()), pr)),
                     if old(free)[pr] == [] then 0 else old(free)[pr][0])
      ensures forall w :: 0 <= w < mem.Length && ptr < 4 * w < ptr + Size(TypeOf(old(View()), pr)) ==>
                mem[w] == 0xdead_beef
    {
      hide Filter, Chain, PageAddr, BlockType, Apart, UsedBits, Size, PerPage, Distinct, FreeList;
      ghost var s := View();
      assert PageOk(s, pr);
      var page, t := PageAddr(refs[pr].pab), BlockType(refs[pr].pab);
      PageAligned(refs[pr].pab);
      BlockEnd(page, t, ptr);
      BlockAligned(page, t, ptr);
      HeadOk(s, pr);
      hide IsBlock, PageOk;
      Fill(ptr, Size(t));
      if refs[pr].off == INVALID {
        mem[ptr / 4] := 0;
      } else {
        mem[ptr / 4] := page + refs[pr].off;
      }
      refs[pr] := refs[pr].(off := ptr - page, nfree := refs[pr].nfree + 1);
      free := free[pr := [ptr] + free[pr]];
      assert refs[..] == s.rs[pr := s.rs[pr].(nfree := s.rs[pr].nfree + 1, off := ptr - page)];
    }

    /** subpage_kfree of a live block, or of an address on none of our pages. */
    method SubpageKfree(ptr: nat, ghost z: nat) returns (found: bool)
      requires Valid()
      requires Live(View(), ptr, z) || forall i :: i in all ==> !(PageOf(View(), i) <= ptr < PageOf(View(), i) + PAGE)
      modifies this`all, this`free, this`allbase, refs, inuse, sizebases, mem
      ensures Valid() && found == old(Live(View(), ptr, z))
      ensures found ==> Lost(old(View()), View(), ptr) && Kept(old(View()), View())
      // the block is wiped, but for the word that links it into the free list
      ensures found ==> forall w :: 0 <= w < mem.Length && ptr < 4 * w < ptr + z ==> mem[w] == 0xdead_beef
      ensures !found ==> View() == old(View())
      ensures NewPages(old(View()), View(), 0)
    {
      hide NewPages;
      hide Filter, Chain, PageAddr, BlockType, Apart, UsedBits, Size, PerPage, Distinct, FreeList, Without, Drops;
      hide Lost, Kept, Push, Live, Filled;
      ghost var s := View();
      LiveOnPage(s, ptr, z);
      PagesSame(s, s, 0);
      var pr := FindPage(ptr);
      if pr == NIL {
        return false;
      }
      found := true;
      LiveHere(s, ptr, z, pr);
      assert PageOk(s, pr);
      var page, t := PageAddr(refs[pr].pab), BlockType(refs[pr].pab);
      var offset := ptr - page;
      if offset >= PAGE || offset % Size(t) != 0 {
        assert false;
      }
      CountOk(s, pr);
      PutBlock(ptr, pr);
      ghost var p := View();
      GaveBlock(s, pr, ptr, mem[..]);
      PushCount(s, pr, ptr, mem[..]);
      PushPages(s, pr, ptr, mem[..]);
      if refs[pr].nfree > PerPage(t) {
        assert false;
      }
      if refs[pr].nfree == PerPage(t) {
        DropPage(pr);
        GavePage(s, p, View(), pr, ptr);
        PagesDropped(s, p, View(), pr);
      }
    }

    /** kmalloc. page is what alloc_kpages would answer for the pages asked of it. The size is
        kept where rounding it up to pages does not wrap. */
    method Kmalloc(sz: nat, page: nat) returns (r: nat, ghost z: nat)
      requires Valid() && sz + PAGE - 1 < 0x1_0000_0000
      requires page == 0 || Unallocated(View(), page, if sz >= 2048 then (sz + PAGE - 1) / PAGE else 1)
      modifies this, refs, inuse, sizebases, mem
      ensures Valid() && Kept(old(View()), View()) && sz <= z
      ensures r == 0 ==> View() == old(View())
      ensures r != 0 && sz < 2048 ==> Gained(old(View()), View(), r, z)
      ensures sz < 2048 ==>
                exists t :: Fits(sz, t) && z == Size(t) &&
                            (r == 0 <==> Exhausted(old(View()), t) && (page == 0 || NoPageref(old(View()))))
      // the least power of two from 16 up that holds the request, or the least number of pages
      ensures sz < 2048 ==> z in {16, 32, 64, 128, 256, 512, 1024, 2048} && (z == 16 || z < 2 * sz)
      ensures sz >= 2048 ==> r == page && z % 4096 == 0 && z < sz + 4096
      ensures sz >= 2048 ==> z == PAGE * ((sz + PAGE - 1) / PAGE)
      ensures r != 0 && sz >= 2048 ==> View() == old(View()).(big := old(big)[r := z / PAGE])
      ensures NewPages(old(View()), View(), page)
    {
      hide NewPages;
      PagesSame(View(), View(), page);
      hide Filter, Chain, PageAddr, BlockType, Apart, UsedBits, Size, PerPage, Distinct, FreeList, Kept;
      hide Unallocated, Pages, Lists;
      if sz >= 2048 {
        ghost var s := View();
        PagesCover(sz);
        var npages := PageCount(sz);
        r, z := page, npages * PAGE;
        KeptRefl(s, s);
        if r == 0 {
          return;
        }
        BigInv(s, page, npages);
        big := big[page := npages];
        KeptRefl(s, View());
        PagesSame(s, View(), page);
        return;
      }
      var a, t := SubpageKmalloc(sz, page);
      r, z := a, Size(t);
      SizePower(sz, t);
    }

    /** kfree of NULL, of a live block or of a multi-page allocation. */
    method Kfree(ptr: nat, ghost z: nat)
      requires Valid() && (ptr == 0 || Live(View(), ptr, z) || ptr in big)
      modifies this, refs, inuse, sizebases, mem
      ensures Valid() && Kept(old(View()), View())
      ensures ptr == 0 ==> View() == old(View())
      ensures old(Live(View(), ptr, z)) ==> Lost(old(View()), View(), ptr)
      ensures old(Live(View(), ptr, z)) ==>
                forall w :: 0 <= w < mem.Length && ptr < 4 * w < ptr + z ==> mem[w] == 0xdead_beef
      ensures ptr in old(big) ==> View() == old(View()).(big := old(big) - {ptr})
      ensures NewPages(old(View()), View(), 0)
    {
      hide NewPages;
      hide Filter, Chain, PageAddr, BlockType, Apart, UsedBits, Size, PerPage, Distinct, FreeList, Kept, Pages;
      hide Lists, Live, Lost;
      ghost var s := View();
      KeptRefl(s, s);
      PagesSame(s, s, 0);
      NoNull(s, ptr, z);
      if ptr == 0 {
        return;
      }
      var found := SubpageKfree(ptr, z);
      if !found {
        BigAligned(s, ptr);
        if ptr % PAGE != 0 {
          assert false;
        }
        BigGone(s, ptr);
        big := big - {ptr};
        KeptRefl(s, View());
        PagesSame(s, View(), 0);
      }
    }

    /** The owner of a block stores word w of it: the heap and everybody else's words are kept. */
    method Store(a: nat, ghost z: nat, w: nat, v: nat)
      requires Valid() && Live(View(), a, z) && a <= 4 * w < a + z
      modifies mem
      ensures Valid() && w < |old(mem[..])| && View() == Poked(old(View()), w, v)
      ensures KeptBut(old(View()), View(), a) && Live(View(), a, z)
    {
      hide Lists, Pages, Apart, UsedBits, PageOf, TypeOf, Size, IsBlock, KeptBut;
      ghost var s := View();
      ghost var i :| LiveIn(s, i, a) && TypeOf(s, i) < NSIZES && Size(TypeOf(s, i)) == z;
      PokeLive(s, i, a, w, v);
      PokeKept(s, a, z, w, v);
      mem[w] := v;
      assert View() == Poked(s, w, v);
      SameLive(s, w, v, i, a);
    }

    /** The same for a multi-page allocation. */
    method StoreBig(b: nat, w: nat, v: nat)
      requires Valid() && b in big && b <= 4 * w < b + PAGE * big[b]
      modifies mem
      ensures Valid() && w < |old(mem[..])| && View() == Poked(old(View()), w, v)
      ensures KeptBut(old(View()), View(), b) && b in big
    {
      hide Lists, Pages, Apart, UsedBits, PageOf, TypeOf, Size, IsBlock, KeptBut;
      ghost var s := View();
      PokeBig(s, b, w, v);
      PokeKept(s, b, PAGE * big[b], w, v);
      mem[w] := v;
      assert View() == Poked(s, w, v);
    }
  }

  /** blocktype: the smallest size class that holds sz. */
  method FindType(sz: nat) returns (t: nat)
    requires sz <= 2048
    ensures Fits(sz, t)
  {
    t := 0;
    while t < NSIZES
      invariant t <= NSIZES && (t > 0 ==> Size(t - 1) < sz)
    {
      if sz <= Size(t) {
        return;
      }
      t := t + 1;
    }
    assert false;
  }
}
