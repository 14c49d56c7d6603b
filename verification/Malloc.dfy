/** lib/libc/malloc.c: malloc and free over raw memory with boundary tags. Addresses are kept
    in 8-byte granules relative to the heap base; callers see byte addresses. */
module Malloc {
  import opened MallocModel

  /** The round-up of malloc.c:330 on a 32-bit size_t, in granules. */
  function Rounded(size: nat): nat { (size + 7) % 0x1_0000_0000 / 8 }

  /** It is enough for the request exactly when the addition does not wrap. */
  lemma RoundedEnough(size: Word)
    ensures 8 * Rounded(size) >= size <==> size < 0x1_0000_0000 - 7
    ensures size < 0x1_0000_0000 - 7 ==> 8 * Rounded(size) < size + 8
  {
  }

  lemma RoundedIs(size: nat)
    requires size < 0x1_0000_0000 - 7
    ensures Rounded(size) == (size + 7) / 8
  {
  }

  class Heap {
    const base: nat               // __heapbase / 8
    const mem: array<Granule>     // what sbrk can ever give, from the base up
    var top: nat                  // (__heaptop - __heapbase) / 8
    ghost var bs: seq<Block>

    ghost predicate Shape()
      reads this, mem
    {
      0 < base && base + mem.Length <= FIELD && top <= mem.Length && Tiles(bs, top) && Tags(mem[..], bs)
      && Dead(mem[..], bs)
    }

    ghost predicate Valid()
      reads this, mem
    {
      Shape() && Tight(bs)
    }

    /** x is a pointer malloc gave out for a block of len granules and has not been freed. */
    ghost predicate Owned(x: nat, len: nat)
      reads this
    {
      x % 8 == 0 && base < x / 8 && Live(bs, x / 8 - 1 - base, len)
    }

    /** __malloc_init: the heap is empty and starts at the break rounded up to a granule. */
    constructor (brk: nat, m: array<Granule>)
      requires 0 < brk && (brk + 7) / 8 + m.Length <= FIELD
      ensures Valid() && bs == [] && top == 0 && mem == m && brk <= 8 * base < brk + 8
    {
      base := if brk % 8 != 0 then (brk + (8 - brk % 8)) / 8 else brk / 8;
      mem := m;
      top := 0;
      bs := [];
    }

    /** __malloc_sbrk: n more granules at the top, unless the kernel refuses. */
    method Sbrk(n: nat, deny: bool) returns (ok: bool)
      requires top <= mem.Length
      modifies this`top
      ensures ok == (!deny && old(top) + n <= mem.Length)
      ensures top == if ok then old(top) + n else old(top)
    {
      ok := !deny && top + n <= mem.Length;
      if ok {
        top := top + n;
      }
    }

    lemma TagAt(k: nat)
      requires Shape() && k < |bs|
      ensures bs[k].at < top && PrevOf(mem[bs[k].at]) == PrevLen(bs, k) && NextOf(mem[bs[k].at]) == bs[k].len
      ensures InUse(mem[bs[k].at]) == bs[k].used && MagicOk(mem[bs[k].at])
      ensures bs[k].at + bs[k].len == (if k + 1 < |bs| then bs[k + 1].at else top)
      ensures k == |bs| - 1 <==> bs[k].at + bs[k].len == top
    {
      hide Header, PrevOf, NextOf, InUse, MagicOk;
      assert Tagged(mem[..], bs, k);
      Below(bs, top, k);
      HeaderFields(PrevLen(bs, k), bs[k].len, bs[k].used);
      if k + 1 < |bs| {
        assert Adjacent(bs, k + 1);
        Below(bs, top, k + 1);
      }
    }

    /** The first-fit scan, checking every header it passes. */
    method Scan(n: nat) returns (i: nat, right: Field, ghost k: nat)
      requires Shape()
      ensures k == FirstFit(bs, n)
      ensures i == if k < |bs| then bs[k].at else top
      ensures right == if k == 0 then 0 else bs[k - 1].len
    {
      hide PrevOf, NextOf, InUse, MagicOk, Tags, Tiles;
      i, right, k := 0, 0, 0;
      FirstAt(bs, top);
      while i < top
        invariant k <= |bs| && i == (if k < |bs| then bs[k].at else top)
        invariant right == (if k == 0 then 0 else bs[k - 1].len)
        invariant forall j :: 0 <= j < k ==> !Fits(bs[j], n)
        decreases |bs| - k
      {
        TagAt(k);
        var g := mem[i];
        if !MagicOk(g) || PrevOf(g) != right {
          assert false;
        }
        if !InUse(g) && NextOf(g) - 1 >= n {
          FirstFitIs(bs, n, k);
          return;
        }
        right := NextOf(g);
        i := i + NextOf(g);
        k := k + 1;
      }
      if k < |bs| {
        TagAt(k);
      }
      if i != top {
        assert false;
      }
      FirstFitIs(bs, n, k);
    }

    /** __malloc_split on the free block k. */
    method Split(mh: nat, n: nat, ghost k: nat)
      requires Shape() && k < |bs| && mh == bs[k].at && Fits(bs[k], n)
      modifies mem, this`bs
      ensures Shape() && bs == SplitAt(old(bs), k, n) && SameData(old(mem[..]), mem[..], old(bs))
    {
      hide Header, PrevOf, NextOf, InUse, MagicOk, SetNext, SetPrev, Tags, Tiles, SameData, SplitAt, Dead;
      ghost var m := mem[..];
      TagAt(k);
      Below(bs, top, k);
      SplitTiles(bs, top, k, n);
      var size := NextOf(mem[mh]) - 1;
      if size - n < 2 {
        SplitSmall(bs, k, n);
        SameRefl(m, bs);
        return;
      }
      var mhnext := mh + NextOf(mem[mh]);
      mem[mh] := SetNext(mem[mh], n + 1);
      var mhnew := mh + n + 1;
      mem[mhnew] := Header(n + 1, size - n, false);
      if mhnext != top {
        mem[mhnext] := SetPrev(mem[mhnext], size - n);
      }
      assert k + 1 < |bs| <==> mhnext != top;
      assert mem[..] == SplitMem(m, bs, k, n);
      SplitTags(m, bs, top, k, n);
      SplitData(m, bs, top, k, n);
      SplitDead(m, bs, top, k, n);
      bs := SplitAt(bs, k, n);
    }

    /** Allocating the free block k: split it and mark it used. */
    method Take(mh: nat, n: nat, ghost k: nat)
      requires Valid() && k < |bs| && mh == bs[k].at && Fits(bs[k], n)
      modifies mem, this`bs
      ensures Valid() && bs == Taken(old(bs), k, n) && SameData(old(mem[..]), mem[..], old(bs))
    {
      hide Header, PrevOf, NextOf, InUse, MagicOk, SetInUse, Tags, Tiles, SameData, SplitAt, Tight, Live, Dead;
      ghost var m, b0 := mem[..], bs;
      TakenTight(b0, k, n);
      SplitLive(b0, k, n, 0, 0);
      Split(mh, n, k);
      ghost var m1, b1 := mem[..], bs;
      TagAt(k);
      mem[mh] := SetInUse(mem[mh], true);
      assert mem[..] == m1[mh := SetInUse(m1[mh], true)];
      MarkTags(m1, b1, top, k, true);
      HeaderData(m1, b1, top, k, SetInUse(m1[mh], true));
      HeaderDead(m1, b1, top, k, SetInUse(m1[mh], true));
      forall o: nat, l: nat ensures Live(b0, o, l) ==> Live(b1, o, l) { SplitLive(b0, k, n, o, l); }
      SameTrans(m, m1, mem[..], b0, b1);
      bs := Marked(b1, k, true);
    }

    /** Growing the heap by one used block. */
    method Grow(n: nat, right: Field, deny: bool) returns (ok: bool)
      requires Valid() && right == if bs == [] then 0 else bs[|bs| - 1].len
      modifies this`top, this`bs, mem
      ensures Valid() && ok == (!deny && old(top) + n + 1 <= mem.Length)
      ensures !ok ==> bs == old(bs) && top == old(top) && mem[..] == old(mem[..])
      ensures ok ==> bs == old(bs) + [Block(old(top), n + 1, true)] && top == old(top) + n + 1
      ensures SameData(old(mem[..]), mem[..], old(bs))
    {
      hide Header, Tags, Tiles, SameData, Tight, Dead;
      ghost var m := mem[..];
      var mh := top;
      ok := Sbrk(n + 1, deny);
      if !ok {
        SameRefl(m, bs);
        return;
      }
      mem[mh] := Header(right, n + 1, true);
      GrowTags(m, bs, mh, n);
      GrownTight(bs, mh, n);
      GrowDead(m, bs, mh, n, Header(right, n + 1, true));
      assert mem[..] == m[mh := Header(right, n + 1, true)];
      bs := bs + [Block(mh, n + 1, true)];
    }

    /** malloc. The size is kept below 2^31 - 16, so that neither the round-up nor the int that
        sbrk takes overflows. */
    method Malloc(size: nat, deny: bool) returns (x: nat, ghost len: nat)
      requires Valid() && size < 0x8000_0000 - 16
      modifies this`top, this`bs, mem
      ensures Valid() && SameData(old(mem[..]), mem[..], old(bs))
      // first fit: the lowest block that fits is taken, and the heap grows only when none does
      ensures var n := Rounded(size); var k := FirstFit(old(bs), n);
        if k < |old(bs)| then
          bs == Taken(old(bs), k, n) && top == old(top) && x == 8 * (base + old(bs)[k].at + 1)
        else if !deny && old(top) + n + 1 <= mem.Length then
          bs == old(bs) + [Block(old(top), n + 1, true)] && top == old(top) + n + 1 && x == 8 * (base + old(top) + 1)
        else
          x == 0 && bs == old(bs) && top == old(top) && mem[..] == old(mem[..])
      // in bytes: the lowest free block that has room is taken, without growing the heap, and what
      // it has beyond the request is given back when it is large enough for a block
      ensures forall k: nat :: Lowest(old(bs), k, size) ==>
                && top == old(top) && x == 8 * (base + old(bs)[k].at + 1) && TookFrom(old(bs)[k], size, len, bs)
      // the heap grows, or NULL is returned, only when every free block is too small
      ensures NoneHasRoom(old(bs), size) ==>
                if !deny && old(top) + (size + 7) / 8 + 1 <= mem.Length then
                  x == 8 * (base + old(top) + 1) && 8 * (len - 1) == (size + 7) / 8 * 8 && top == old(top) + len
                else x == 0 && top == old(top)
      // the result is new, large enough and apart from everything live
      ensures x != 0 ==> Owned(x, len) && 8 * (len - 1) >= size && NewBlock(old(bs), bs, x / 8 - 1 - base, len)
    {
      hide Header, PrevOf, NextOf, InUse, MagicOk, SetInUse, Tags, Tiles, SameData, SplitAt, Taken, Tight, FirstFit;
      hide NewBlock, Rounded, Dead, TookFrom, Lowest, NoneHasRoom;
      var n := Rounded(size);
      RoundedEnough(size);
      RoundedIs(size);
      LowestIs(bs, n, size);
      var mh, right, k := Scan(n);
      x, len := 0, 0;
      if mh < top {
        assert k < |bs|;
        TakenNew(bs, top, k, n);
        TakenLen(bs, k, n, size);
        Take(mh, n, k);
        x := 8 * (base + mh + 1);
        len := bs[k].len;
        assert bs[k] == Block(mh, len, true);
      } else {
        if k < |bs| {
          TagAt(k);
        }
        assert k == |bs|;
        GrownNew(bs, top, n);
        var ok := Grow(n, right, deny);
        if ok {
          x := 8 * (base + mh + 1);
          len := n + 1;
          assert bs[|bs| - 1] == Block(mh, len, true);
        }
      }
    }

    /** __malloc_deadbeef, a granule at a time. */
    method Wipe(at: nat, n: nat)
      requires at + n <= mem.Length
      modifies mem
      ensures forall a :: 0 <= a < mem.Length ==> mem[a] == if at <= a < at + n then DEADBEEF else old(mem[a])
    {
      var i := 0;
      while i < n
        invariant 0 <= i <= n
        invariant forall a :: 0 <= a < mem.Length ==> mem[a] == if at <= a < at + i then DEADBEEF else old(mem[a])
      {
        mem[at + i] := DEADBEEF;
        i := i + 1;
      }
    }

    /** __malloc_trymerge on the neighbours k and k + 1. */
    method TryMerge(mh: nat, mhnext: nat, ghost k: nat)
      requires Shape() && k + 1 < |bs| && mh == bs[k].at && mhnext == bs[k + 1].at
      modifies mem, this`bs
      ensures Shape() && bs == MergeAt(old(bs), k) && SameData(old(mem[..]), mem[..], old(bs))
    {
      hide Header, PrevOf, NextOf, InUse, MagicOk, SetNext, SetPrev, Tags, Tiles, SameData, MergeAt, Dead;
      ghost var m := mem[..];
      TagAt(k);
      TagAt(k + 1);
      MergeSize(bs, top, k);
      MergeTiles(bs, top, k);
      if NextOf(mem[mh]) != PrevOf(mem[mhnext]) {
        assert false;
      }
      if InUse(mem[mh]) || InUse(mem[mhnext]) {
        MergeNoop(bs, k);
        SameRefl(m, bs);
        return;
      }
      var mhnextnext := mhnext + NextOf(mem[mhnext]);
      var l := NextOf(mem[mh]) + NextOf(mem[mhnext]);
      mem[mh] := SetNext(mem[mh], l);
      if mhnextnext != top {
        mem[mhnextnext] := SetPrev(mem[mhnextnext], l);
      }
      mem[mhnext] := DEADBEEF;
      assert mem[..] == MergeMem(m, bs, k);
      MergeTags(m, bs, top, k);
      MergeData(m, bs, top, k);
      MergeDead(m, bs, top, k);
      bs := MergeAt(bs, k);
    }

    /** Marking block k free and wiping it. */
    method Release(mh: nat, ghost k: nat)
      requires Shape() && k < |bs| && mh == bs[k].at && bs[k].used
      modifies mem, this`bs
      ensures Shape() && bs == Marked(old(bs), k, false) && SameData(old(mem[..]), mem[..], bs)
    {
      hide Header, PrevOf, NextOf, InUse, MagicOk, SetInUse, Tags, Tiles, SameData, Dead;
      ghost var m, b0 := mem[..], bs;
      TagAt(k);
      Below(bs, top, k);
      mem[mh] := SetInUse(mem[mh], false);
      ghost var m1 := mem[..];
      assert m1 == m[mh := SetInUse(m[mh], false)];
      MarkTags(m, b0, top, k, false);
      assert b0[k].len >= 1 && NextOf(m1[mh]) == b0[k].len by { MarkedNext(m, b0, top, k); }
      Wipe(mh + 1, NextOf(mem[mh]) - 1);
      bs := Marked(b0, k, false);
      DataTags(m1, mem[..], bs, top, k);
      FreedDead(m, mem[..], b0, top, k);
      ReleaseData(m, m1, mem[..], b0, k);
    }

    lemma MarkedNext(m: seq<Granule>, b0: seq<Block>, t: nat, k: nat)
      requires Tiles(b0, t) && Tags(m, b0) && k < |b0| && b0[k].at < |m|
      ensures b0[k].len >= 1 && NextOf(SetInUse(m[b0[k].at], false)) == b0[k].len
    {
      hide Header, PrevOf, NextOf, InUse, MagicOk, SetInUse;
      Below(b0, t, k);
      assert Tagged(m, b0, k);
      HeaderFields(PrevLen(b0, k), b0[k].len, false);
      HeaderUpdates(PrevLen(b0, k), b0[k].len, b0[k].used, 0, false);
    }

    lemma ReleaseData(m: seq<Granule>, m1: seq<Granule>, m2: seq<Granule>, b0: seq<Block>, k: nat)
      requires k < |b0| && Tiles(b0, top) && b0[k].at < |m| && |m2| == |m| == |m1|
      requires m1 == m[b0[k].at := m1[b0[k].at]]
      requires forall a: nat :: a < |m| && !InData(b0[k], a) ==> m2[a] == m1[a]
      ensures SameData(m, m2, Marked(b0, k, false))
    {
      forall b, a: nat | b in b0 && b != b0[k] && a < |m| && InData(b, a)
        ensures m2[a] == m[a]
      {
        var i :| 0 <= i < |b0| && b0[i] == b;
        Inside(b0, top, i, k, a);
      }
      WipedData(m, m2, b0, top, k);
    }

    /** Merging the free block k with the block above and then with the block below. */
    method Coalesce(mh: nat, ghost k: nat)
      requires Shape() && k < |bs| && mh == bs[k].at
      modifies mem, this`bs
      ensures Shape() && bs == MergeDown(MergeUp(old(bs), k), k) && SameData(old(mem[..]), mem[..], old(bs))
    {
      hide Header, PrevOf, NextOf, InUse, MagicOk, Tags, Tiles, SameData, MergeAt, Live, Dead;
      ghost var m, b0 := mem[..], bs;
      TagAt(k);
      UpAt(b0, k);
      SameRefl(m, b0);
      var mhnext := mh + NextOf(mem[mh]);
      if mhnext != top {
        TryMerge(mh, mhnext, k);
      }
      ghost var m1, b1 := mem[..], bs;
      assert b1 == MergeUp(b0, k);
      AtZero(b1, top, k);
      if mh != 0 {
        TagAt(k);
        TagAt(k - 1);
        var mhprev := mh - PrevOf(mem[mh]);
        TryMerge(mhprev, mh, k - 1);
        forall o: nat, l: nat ensures Live(b0, o, l) ==> Live(b1, o, l) { UpLive(b0, k, o, l); }
        SameTrans(m, m1, mem[..], b0, b1);
      }
    }

    /** free. The pointer is NULL or one that malloc gave out; the call exits with "out of range"
        exactly when the pointer equals the heap top. */
    method Free(x: nat, ghost len: nat) returns (exited: bool)
      requires Valid() && (x == 0 || Owned(x, len))
      modifies mem, this`bs
      ensures Valid()
      ensures exited <==> x != 0 && x == 8 * (base + top)
      ensures x == 0 || exited ==> bs == old(bs) && mem[..] == old(mem[..])
      ensures x != 0 && !exited ==>
                exists k :: 0 <= k < |old(bs)| && old(bs)[k] == Block(x / 8 - 1 - base, len, true) &&
                            bs == Freed(old(bs), k)
      // what was in it now reads 0xdeadbeef
      ensures x != 0 && !exited ==>
                forall a :: x / 8 - base <= a < x / 8 - base + len - 1 && a < mem.Length ==>
                  mem[a] == Granule(0xdead_beef, 0xdead_beef)
      ensures x != 0 && !exited ==> forall o: nat, l: nat :: Live(bs, o, l) <==>
                Live(old(bs), o, l) && o != x / 8 - 1 - base
      ensures SameData(old(mem[..]), mem[..], bs)
    {
      hide Header, PrevOf, NextOf, InUse, MagicOk, Tags, Tiles, SameData, Tight, MergeAt, Dead;
      exited := false;
      SameRefl(mem[..], bs);
      if x == 0 {
        return;
      }
      ghost var m, b0 := mem[..], bs;
      ghost var k :| 0 <= k < |bs| && bs[k] == Block(x / 8 - 1 - base, len, true);
      TagAt(k);
      if x < 8 * base || x >= 8 * (base + top) {
        exited := true;
        return;
      }
      var mh := x / 8 - 1 - base;
      if !MagicOk(mem[mh]) || !InUse(mem[mh]) {
        assert false;
      }
      FreedTight(b0, k);
      Release(mh, k);
      ghost var m1, b1 := mem[..], bs;
      Coalesce(mh, k);
      forall o: nat, l: nat
        ensures Live(bs, o, l) <==> Live(b0, o, l) && o != mh
        ensures Live(bs, o, l) <==> Live(b1, o, l)
      {
        FreedLive(b0, top, k, o, l);
        UpLive(b1, k, o, l);
        UpAt(b1, k);
        if k > 0 {
          MergeLive(MergeUp(b1, k), k - 1, o, l);
        }
      }
      FreedFree(b0, top, k);
      forall a | mh + 1 <= a < mh + len && a < mem.Length
        ensures mem[a] == DEADBEEF
      {
        var j :| 0 <= j < |bs| && bs[j] == FreedBlock(b0, k);
        assert InFree(bs, j, a);
        StillDead(mem[..], bs, j, a);
      }
      SameTrans(m, m1, mem[..], b1, b1);
      SameLess(m, mem[..], b1, bs);
    }

    /** The owner of a block stores a granule in it. */
    method Store(x: nat, ghost len: nat, d: nat, v: Granule)
      requires Valid() && Owned(x, len) && d < len - 1
      modifies mem
      ensures Valid() && x / 8 - base + d < mem.Length && mem[..] == old(mem[..])[x / 8 - base + d := v]
      ensures forall b, a: nat :: b in bs && b.at != x / 8 - 1 - base && a < mem.Length && InData(b, a) ==>
                mem[a] == old(mem[a])
    {
      hide Header, Tags, Tiles, Tight, Dead;
      ghost var m := mem[..];
      ghost var k :| 0 <= k < |bs| && bs[k] == Block(x / 8 - 1 - base, len, true);
      Below(bs, top, k);
      mem[x / 8 - base + d] := v;
      DataTags(m, mem[..], bs, top, k);
      StoredDead(m, mem[..], bs, top, k);
    }
  }

  /** The exit in free happens for a zero-byte block that is the last of the heap, and only
      then. */
  lemma FreeExits(bs: seq<Block>, top: nat, k: nat)
    requires Tiles(bs, top) && k < |bs|
    ensures bs[k].at + 1 == top <==> k == |bs| - 1 && bs[k].len == 1
  {
    Below(bs, top, k);
    if k < |bs| - 1 {
      Ordered(bs, top, k, |bs| - 1);
      Below(bs, top, |bs| - 1);
    }
  }

  /** A program whose first call is malloc(0) has such a block, and its free exits. */
  method FreeOfEmptyBlock(h: Heap) returns (exited: bool)
    requires h.Valid() && h.bs == [] && 1 <= h.mem.Length
    modifies h, h.mem
    ensures exited
  {
    var x, len := h.Malloc(0, false);
    exited := h.Free(x, len);
  }
}
