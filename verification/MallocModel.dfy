/** The user heap of lib/libc/malloc.c as a list of blocks: what malloc and free do to it, and
    how the list is laid out in memory as boundary tags. */
module MallocModel {
  const FIELD := 0x2000_0000        // 29-bit offset fields
  const MMAGIC := 2

  type Word = w: nat | w < 0x1_0000_0000
  type Field = f: nat | f < FIELD

  /** Eight bytes of heap memory, two words. Any granule can be read as a header. */
  datatype Granule = Granule(w0: Word, w1: Word)

  const DEADBEEF := Granule(0xdead_beef, 0xdead_beef)

  function PrevOf(g: Granule): Field { g.w0 / 8 }
  function NextOf(g: Granule): Field { g.w1 / 8 }
  predicate InUse(g: Granule) { g.w1 / 4 % 2 == 1 }
  predicate MagicOk(g: Granule) { g.w0 % 4 == MMAGIC && g.w1 % 4 == MMAGIC }

  function SetPrev(g: Granule, f: Field): Granule { g.(w0 := f * 8 + g.w0 % 8) }
  function SetNext(g: Granule, f: Field): Granule { g.(w1 := f * 8 + g.w1 % 8) }
  function SetInUse(g: Granule, b: bool): Granule { g.(w1 := g.w1 / 8 * 8 + (if b then 4 else 0) + g.w1 % 4) }

  function Header(prev: Field, next: Field, used: bool): Granule {
    Granule(prev * 8 + MMAGIC, next * 8 + (if used then 4 else 0) + MMAGIC)
  }

  lemma Div8(a: nat, b: nat)
    requires b < 8
    ensures (a * 8 + b) / 8 == a && (a * 8 + b) % 8 == b
  {
  }

  lemma Div4(a: nat, b: nat)
    requires b < 4
    ensures (a * 4 + b) / 4 == a && (a * 4 + b) % 4 == b
  {
  }

  lemma Bits(a: nat, u: bool)
    ensures var x := a * 8 + (if u then 4 else 0) + MMAGIC;
      x / 8 == a && x % 8 == (if u then 4 else 0) + MMAGIC && x % 4 == MMAGIC && (x / 4 % 2 == 1 <==> u)
  {
    var x := a * 8 + (if u then 4 else 0) + MMAGIC;
    Div8(a, (if u then 4 else 0) + MMAGIC);
    var c := 2 * a + if u then 1 else 0;
    assert x == c * 4 + MMAGIC;
    Div4(c, MMAGIC);
  }

  lemma HeaderFields(p: Field, n: Field, u: bool)
    ensures PrevOf(Header(p, n, u)) == p && NextOf(Header(p, n, u)) == n
    ensures InUse(Header(p, n, u)) == u && MagicOk(Header(p, n, u))
  {
    Bits(p, false);
    Bits(n, u);
  }

  /** The two words of a header: 29 bits of offset, a bit, and the magic number 2. */
  lemma HeaderLayout(p: Field, n: Field, u: bool)
    ensures Header(p, n, u).w0 == 8 * p + 2 && Header(p, n, u).w1 == 8 * n + (if u then 4 else 0) + 2
  {
  }

  lemma HeaderUpdates(p: Field, n: Field, u: bool, f: Field, b: bool)
    ensures SetPrev(Header(p, n, u), f) == Header(f, n, u)
    ensures SetNext(Header(p, n, u), f) == Header(p, f, u)
    ensures SetInUse(Header(p, n, u), b) == Header(p, n, b)
  {
    Bits(p, false);
    Bits(n, u);
  }

  // ---------------------------------------------------------------- the block list

  /** A block starts at granule at, counted from the heap base, and has len granules, header
      included. */
  datatype Block = Block(at: nat, len: nat, used: bool)

  predicate Adjacent(bs: seq<Block>, k: nat)
    requires 0 < k < |bs|
  {
    bs[k].at == bs[k - 1].at + bs[k - 1].len
  }

  /** The blocks tile the heap from 0 up to top. */
  predicate Tiles(bs: seq<Block>, top: nat) {
    && (if bs == [] then top == 0 else bs[0].at == 0 && bs[|bs| - 1].at + bs[|bs| - 1].len == top)
    && (forall k :: 0 < k < |bs| ==> Adjacent(bs, k))
    && (forall k :: 0 <= k < |bs| ==> bs[k].len >= 1)
  }

  predicate Fits(b: Block, n: nat) { !b.used && b.len >= n + 1 }

  function FirstFit(bs: seq<Block>, n: nat): (k: nat)
    ensures k <= |bs|
    ensures k < |bs| ==> Fits(bs[k], n)
    ensures forall j :: 0 <= j < k ==> !Fits(bs[j], n)
    decreases |bs|
  {
    if bs == [] || Fits(bs[0], n) then 0 else 1 + FirstFit(bs[1..], n)
  }

  /** __malloc_split leaves n granules of data and frees the rest if it is two granules or more. */
  function SplitAt(bs: seq<Block>, k: nat, n: nat): seq<Block>
    requires k < |bs| && Fits(bs[k], n)
  {
    if bs[k].len - 1 - n < 2 then bs
    else bs[..k] + [Block(bs[k].at, n + 1, false), Block(bs[k].at + n + 1, bs[k].len - 1 - n, false)] + bs[k + 1..]
  }

  function Marked(bs: seq<Block>, k: nat, used: bool): seq<Block>
    requires k < |bs|
  {
    bs[k := bs[k].(used := used)]
  }

  function Taken(bs: seq<Block>, k: nat, n: nat): seq<Block>
    requires k < |bs| && Fits(bs[k], n)
  {
    Marked(SplitAt(bs, k, n), k, true)
  }

  function MergeAt(bs: seq<Block>, k: nat): seq<Block>
    requires k + 1 < |bs|
  {
    if bs[k].used || bs[k + 1].used then bs
    else bs[..k] + [Block(bs[k].at, bs[k].len + bs[k + 1].len, false)] + bs[k + 2..]
  }

  function MergeUp(bs: seq<Block>, k: nat): seq<Block>
    requires k < |bs|
  {
    if k + 1 < |bs| then MergeAt(bs, k) else bs
  }

  function MergeDown(bs: seq<Block>, k: nat): seq<Block>
    requires k < |bs|
  {
    if k > 0 then MergeAt(bs, k - 1) else bs
  }

  function Freed(bs: seq<Block>, k: nat): seq<Block>
    requires k < |bs|
  {
    MergeDown(MergeUp(Marked(bs, k, false), k), k)
  }

  // ---------------------------------------------------------------- no two free neighbours

  predicate OneUsed(bs: seq<Block>, k: nat)
    requires 0 < k < |bs|
  {
    bs[k - 1].used || bs[k].used
  }

  predicate Tight(bs: seq<Block>) {
    forall k :: 0 < k < |bs| ==> OneUsed(bs, k)
  }

  lemma TakenTight(bs: seq<Block>, k: nat, n: nat)
    requires Tight(bs) && k < |bs| && Fits(bs[k], n)
    ensures Tight(Taken(bs, k, n))
  {
    var cs := Taken(bs, k, n);
    forall j | 0 < j < |cs|
      ensures OneUsed(cs, j)
    {
      if j < k || |cs| == |bs| {
        assert OneUsed(bs, j);
      } else if j > k + 1 {
        assert OneUsed(bs, j - 1);
      }
    }
  }

  /** Freeing merges both ways, so no two free blocks ever touch. */
  lemma FreedTight(bs: seq<Block>, k: nat)
    requires Tight(bs) && k < |bs| && bs[k].used
    ensures Tight(Freed(bs, k))
  {
    var c1 := MergeUp(Marked(bs, k, false), k);
    UpTight(bs, k);
    var d := MergeDown(c1, k);
    forall j | 0 < j < |d|
      ensures OneUsed(d, j)
    {
      if |d| == |c1| {
        assert j != k ==> OneUsed(c1, j);
      } else if j < k {
        assert OneUsed(c1, j);
      } else {
        assert OneUsed(c1, j + 1);
      }
    }
  }

  /** After merging upwards only block k and the block below it may both be free. */
  lemma UpTight(bs: seq<Block>, k: nat)
    requires Tight(bs) && k < |bs| && bs[k].used
    ensures var c := MergeUp(Marked(bs, k, false), k);
      k < |c| && !c[k].used && forall j :: 0 < j < |c| && j != k ==> OneUsed(c, j)
  {
    var c := MergeUp(Marked(bs, k, false), k);
    forall j | 0 < j < |c| && j != k
      ensures OneUsed(c, j)
    {
      if j < k || |c| == |bs| {
        assert OneUsed(bs, j);
      } else {
        assert OneUsed(bs, j + 1);
      }
    }
  }

  /** So a heap with nothing live is at most one free block. */
  lemma AllFreeIsOneBlock(bs: seq<Block>)
    requires Tight(bs) && (forall k :: 0 <= k < |bs| ==> !bs[k].used)
    ensures |bs| <= 1
  {
    assert |bs| > 1 ==> OneUsed(bs, 1);
  }

  // ---------------------------------------------------------------- tiling

  lemma {:induction false} Ordered(bs: seq<Block>, top: nat, i: nat, j: nat)
    requires Tiles(bs, top) && i < j < |bs|
    ensures bs[i].at + bs[i].len <= bs[j].at < top
    decreases j
  {
    assert Adjacent(bs, j);
    if i + 1 < j {
      Ordered(bs, top, i, j - 1);
    }
    Below(bs, top, j);
  }

  lemma {:induction false} Below(bs: seq<Block>, top: nat, j: nat)
    requires Tiles(bs, top) && j < |bs|
    ensures bs[j].at + bs[j].len <= top && bs[j].len >= 1
    decreases |bs| - j
  {
    if j + 1 < |bs| {
      assert Adjacent(bs, j + 1);
      Below(bs, top, j + 1);
    }
  }

  lemma FirstAt(bs: seq<Block>, top: nat)
    requires Tiles(bs, top)
    ensures if bs == [] then top == 0 else bs[0].at == 0
  {
  }

  lemma SplitTiles(bs: seq<Block>, top: nat, k: nat, n: nat)
    requires Tiles(bs, top) && k < |bs| && Fits(bs[k], n)
    ensures Tiles(SplitAt(bs, k, n), top)
  {
    var cs := SplitAt(bs, k, n);
    forall j | 0 < j < |cs|
      ensures Adjacent(cs, j)
    {
      if j <= k || |cs| == |bs| {
        assert Adjacent(bs, j);
      } else if j > k + 1 {
        assert Adjacent(bs, j - 1);
      }
    }
  }

  lemma MergeTiles(bs: seq<Block>, top: nat, k: nat)
    requires Tiles(bs, top) && k + 1 < |bs|
    ensures Tiles(MergeAt(bs, k), top)
  {
    var cs := MergeAt(bs, k);
    assert Adjacent(bs, k + 1);
    forall j | 0 < j < |cs|
      ensures Adjacent(cs, j)
    {
      if j <= k || |cs| == |bs| {
        assert Adjacent(bs, j);
      } else {
        assert Adjacent(bs, j + 1);
      }
    }
  }

  // ---------------------------------------------------------------- live blocks

  /** A live block starts at o and has len granules. */
  predicate Live(bs: seq<Block>, o: nat, len: nat) { Block(o, len, true) in bs }

  /** Two live blocks are the same or do not overlap. */
  lemma LiveApart(bs: seq<Block>, top: nat, o: nat, len: nat, p: nat, plen: nat)
    requires Tiles(bs, top) && Live(bs, o, len) && Live(bs, p, plen)
    ensures (o == p && len == plen) || o + len <= p || p + plen <= o
    ensures o + len <= top
  {
    var i :| 0 <= i < |bs| && bs[i] == Block(o, len, true);
    var k :| 0 <= k < |bs| && bs[k] == Block(p, plen, true);
    Below(bs, top, i);
    if i < k {
      Ordered(bs, top, i, k);
    } else if k < i {
      Ordered(bs, top, k, i);
    }
  }

  /** What is live after the first-fit block k is taken: what was live, and the block. */
  lemma TakenLive(bs: seq<Block>, k: nat, n: nat, o: nat, len: nat)
    requires k < |bs| && Fits(bs[k], n)
    ensures Live(Taken(bs, k, n), o, len) <==>
      Live(bs, o, len) || (o == bs[k].at && len == Taken(bs, k, n)[k].len)
    ensures Taken(bs, k, n)[k].at == bs[k].at && n + 1 <= Taken(bs, k, n)[k].len <= n + 2
  {
    var cs := Taken(bs, k, n);
    if Live(bs, o, len) {
      var i :| 0 <= i < |bs| && bs[i] == Block(o, len, true);
      assert cs[if i < k then i else i + |cs| - |bs|] == bs[i];
    }
    if Live(cs, o, len) {
      var i :| 0 <= i < |cs| && cs[i] == Block(o, len, true);
      assert i < k ==> bs[i] == cs[i];
      assert i > k && |cs| == |bs| ==> bs[i] == cs[i];
      assert i > k + 1 && |cs| > |bs| ==> bs[i - 1] == cs[i];
    }
    assert cs[k].used;
  }

  lemma MergeLive(bs: seq<Block>, k: nat, o: nat, len: nat)
    requires k + 1 < |bs|
    ensures Live(MergeAt(bs, k), o, len) <==> Live(bs, o, len)
  {
    var cs := MergeAt(bs, k);
    if |cs| < |bs| {
      if Live(bs, o, len) {
        var i :| 0 <= i < |bs| && bs[i] == Block(o, len, true);
        assert cs[if i < k then i else i - 1] == bs[i];
      }
      if Live(cs, o, len) {
        var i :| 0 <= i < |cs| && cs[i] == Block(o, len, true);
        assert bs[if i < k then i else i + 1] == cs[i];
      }
    }
  }

  /** What is live after block k is freed: everything that was, but block k. */
  lemma FreedLive(bs: seq<Block>, top: nat, k: nat, o: nat, len: nat)
    requires Tiles(bs, top) && k < |bs|
    ensures Live(Freed(bs, k), o, len) <==> Live(bs, o, len) && o != bs[k].at
  {
    var b1 := Marked(bs, k, false);
    assert Live(b1, o, len) <==> Live(bs, o, len) && o != bs[k].at by {
      if Live(b1, o, len) {
        var i :| 0 <= i < |b1| && b1[i] == Block(o, len, true);
        assert bs[i] == b1[i];
        if i < k { Ordered(bs, top, i, k); } else { Ordered(bs, top, k, i); }
      }
      if Live(bs, o, len) && o != bs[k].at {
        var i :| 0 <= i < |bs| && bs[i] == Block(o, len, true);
        assert b1[i] == bs[i];
      }
    }
    var b2 := MergeUp(b1, k);
    if k + 1 < |b1| {
      MergeLive(b1, k, o, len);
    }
    if k > 0 {
      MergeLive(b2, k - 1, o, len);
    }
  }

  // ---------------------------------------------------------------- boundary tags in memory

  function PrevLen(bs: seq<Block>, k: nat): nat
    requires k < |bs|
  {
    if k == 0 then 0 else bs[k - 1].len
  }

  ghost predicate Tagged(m: seq<Granule>, bs: seq<Block>, k: nat)
    requires k < |bs|
  {
    && bs[k].len < FIELD && PrevLen(bs, k) < FIELD && bs[k].at < |m|
    && m[bs[k].at] == Header(PrevLen(bs, k), bs[k].len, bs[k].used)
  }

  /** Every block has its header, with the lengths of the block below and of its own. */
  ghost predicate Tags(m: seq<Granule>, bs: seq<Block>) {
    forall k :: 0 <= k < |bs| ==> Tagged(m, bs, k)
  }

  ghost predicate InData(b: Block, a: nat) { b.at < a < b.at + b.len }

  /** m and m' agree on the data of the used blocks. */
  ghost predicate SameData(m: seq<Granule>, m': seq<Granule>, bs: seq<Block>) {
    && |m'| == |m|
    && forall b, a: nat :: b in bs && b.used && a < |m| && InData(b, a) ==> m'[a] == m[a]
  }

  /** A granule inside block i is no header and lies in no other block. */
  lemma Inside(bs: seq<Block>, top: nat, i: nat, k: nat, a: nat)
    requires Tiles(bs, top) && i < |bs| && k < |bs| && InData(bs[i], a)
    ensures a != bs[k].at && (k != i ==> !InData(bs[k], a)) && a < top
  {
    Below(bs, top, i);
    if i < k {
      Ordered(bs, top, i, k);
    } else if k < i {
      Ordered(bs, top, k, i);
    }
  }

  lemma MarkTags(m: seq<Granule>, bs: seq<Block>, top: nat, k: nat, u: bool)
    requires Tiles(bs, top) && Tags(m, bs) && k < |bs| && bs[k].at < |m|
    ensures Tags(m[bs[k].at := SetInUse(m[bs[k].at], u)], Marked(bs, k, u))
    ensures Tiles(Marked(bs, k, u), top)
  {
    hide Header, SetInUse;
    var cs, m' := Marked(bs, k, u), m[bs[k].at := SetInUse(m[bs[k].at], u)];
    assert Tagged(m, bs, k);
    HeaderUpdates(PrevLen(bs, k), bs[k].len, bs[k].used, 0, u);
    forall j | 0 <= j < |cs|
      ensures Tagged(m', cs, j)
    {
      assert Tagged(m, bs, j);
      if j < k { Ordered(bs, top, j, k); } else if k < j { Ordered(bs, top, k, j); }
    }
    forall j | 0 < j < |cs|
      ensures Adjacent(cs, j)
    {
      assert Adjacent(bs, j);
    }
  }

  /** Memory after __malloc_split has written its headers. */
  function SplitMem(m: seq<Granule>, bs: seq<Block>, k: nat, n: nat): seq<Granule>
    requires k < |bs| && Fits(bs[k], n) && bs[k].len - 1 - n >= 2 && bs[k].len < FIELD
    requires bs[k].at + bs[k].len <= |m| && (k + 1 < |bs| ==> bs[k].at + bs[k].len < |m|)
  {
    var o, e, rest := bs[k].at, bs[k].at + bs[k].len, bs[k].len - 1 - n;
    var m1 := m[o := SetNext(m[o], n + 1)][o + n + 1 := Header(n + 1, rest, false)];
    if k + 1 < |bs| then m1[e := SetPrev(m1[e], rest)] else m1
  }

  /** Granules that differ between m and m' are headers of bs or inside its free block k. */
  ghost predicate Touches(m: seq<Granule>, m': seq<Granule>, bs: seq<Block>, k: nat, h: set<nat>)
    requires k < |bs|
  {
    && |m'| == |m| && !bs[k].used
    && (forall a :: a in h ==> exists j :: 0 <= j < |bs| && bs[j].at == a)
    && (forall a: nat :: a < |m| && a !in h && !InData(bs[k], a) ==> m'[a] == m[a])
  }

  lemma TouchesData(m: seq<Granule>, m': seq<Granule>, bs: seq<Block>, top: nat, k: nat, h: set<nat>)
    requires Tiles(bs, top) && k < |bs| && Touches(m, m', bs, k, h)
    ensures SameData(m, m', bs)
  {
    forall b, a: nat | b in bs && b.used && a < |m| && InData(b, a)
      ensures m'[a] == m[a]
    {
      var i :| 0 <= i < |bs| && bs[i] == b;
      Inside(bs, top, i, k, a);
      if a in h {
        var j :| 0 <= j < |bs| && bs[j].at == a;
        Inside(bs, top, i, j, a);
      }
    }
  }

  lemma SplitData(m: seq<Granule>, bs: seq<Block>, top: nat, k: nat, n: nat)
    requires Tiles(bs, top) && top <= |m| < FIELD && k < |bs| && Fits(bs[k], n) && bs[k].len - 1 - n >= 2
    requires bs[k].len < FIELD && bs[k].at + bs[k].len <= |m| && (k + 1 < |bs| ==> bs[k].at + bs[k].len < |m|)
    ensures SameData(m, SplitMem(m, bs, k, n), bs)
  {
    hide Header, SetNext, SetPrev, SameData;
    assert bs[k].at == bs[k].at;
    assert k + 1 < |bs| ==> Adjacent(bs, k + 1);
    TouchesData(m, SplitMem(m, bs, k, n), bs, top, k,
                if k + 1 < |bs| then {bs[k].at, bs[k + 1].at} else {bs[k].at});
  }

  lemma SplitTags(m: seq<Granule>, bs: seq<Block>, top: nat, k: nat, n: nat)
    requires Tiles(bs, top) && Tags(m, bs) && top <= |m| < FIELD
    requires k < |bs| && Fits(bs[k], n) && bs[k].len - 1 - n >= 2
    requires bs[k].len < FIELD && bs[k].at + bs[k].len <= |m| && (k + 1 < |bs| ==> bs[k].at + bs[k].len < |m|)
    ensures Tags(SplitMem(m, bs, k, n), SplitAt(bs, k, n))
  {
    hide Header, SetNext, SetPrev, SplitAt, SplitMem;
    var cs := SplitAt(bs, k, n);
    assert |cs| == |bs| + 1 by { SplitAtParts(bs, k, n, 0); }
    forall j | 0 <= j < |cs|
      ensures Tagged(SplitMem(m, bs, k, n), cs, j)
    {
      SplitTag(m, bs, top, k, n, j);
    }
  }

  lemma SplitAtParts(bs: seq<Block>, k: nat, n: nat, j: nat)
    requires k < |bs| && Fits(bs[k], n) && bs[k].len - 1 - n >= 2
    ensures var cs := SplitAt(bs, k, n);
      && |cs| == |bs| + 1
      && (j < k ==> cs[j] == bs[j]) && (k + 1 < j < |cs| ==> cs[j] == bs[j - 1])
      && cs[k] == Block(bs[k].at, n + 1, false)
      && cs[k + 1] == Block(bs[k].at + n + 1, bs[k].len - 1 - n, false)
  {
  }

  lemma SplitTag(m: seq<Granule>, bs: seq<Block>, top: nat, k: nat, n: nat, j: nat)
    requires Tiles(bs, top) && Tags(m, bs) && top <= |m| < FIELD
    requires k < |bs| && Fits(bs[k], n) && bs[k].len - 1 - n >= 2
    requires bs[k].len < FIELD && bs[k].at + bs[k].len <= |m| && (k + 1 < |bs| ==> bs[k].at + bs[k].len < |m|)
    requires j < |SplitAt(bs, k, n)|
    ensures Tagged(SplitMem(m, bs, k, n), SplitAt(bs, k, n), j)
  {
    hide Header, SetNext, SetPrev, SplitAt;
    var rest := bs[k].len - 1 - n;
    SplitAtParts(bs, k, n, j);
    if j > 0 {
      SplitAtParts(bs, k, n, j - 1);
    }
    if j < k {
      assert Tagged(m, bs, j);
      Ordered(bs, top, j, k);
    } else if j == k {
      assert Tagged(m, bs, k);
      HeaderUpdates(PrevLen(bs, k), bs[k].len, false, n + 1, false);
    } else if j > k + 1 {
      assert Tagged(m, bs, j - 1) && Adjacent(bs, k + 1);
      Ordered(bs, top, k, j - 1);
      if j == k + 2 {
        HeaderUpdates(bs[k].len, bs[k + 1].len, bs[k + 1].used, rest, false);
      } else {
        Ordered(bs, top, k + 1, j - 1);
      }
    }
  }

  /** Memory after __malloc_trymerge has merged two free blocks. */
  function MergeMem(m: seq<Granule>, bs: seq<Block>, k: nat): seq<Granule>
    requires k + 1 < |bs| && bs[k].len + bs[k + 1].len < FIELD
    requires bs[k].at < |m| && bs[k + 1].at < |m| && (k + 2 < |bs| ==> bs[k + 2].at < |m|)
  {
    var l := bs[k].len + bs[k + 1].len;
    var m1 := m[bs[k].at := SetNext(m[bs[k].at], l)];
    var m2 := if k + 2 < |bs| then m1[bs[k + 2].at := SetPrev(m1[bs[k + 2].at], l)] else m1;
    m2[bs[k + 1].at := DEADBEEF]
  }

  predicate Mergeable(m: seq<Granule>, bs: seq<Block>, top: nat, k: nat) {
    && Tiles(bs, top) && top <= |m| < FIELD
    && k + 1 < |bs| && !bs[k].used && !bs[k + 1].used && bs[k].len + bs[k + 1].len < FIELD
    && bs[k].at < |m| && bs[k + 1].at < |m| && (k + 2 < |bs| ==> bs[k + 2].at < |m|)
  }

  lemma MergeData(m: seq<Granule>, bs: seq<Block>, top: nat, k: nat)
    requires Mergeable(m, bs, top, k)
    ensures SameData(m, MergeMem(m, bs, k), bs)
  {
    hide Header, SetNext, SetPrev, SameData;
    TouchesData(m, MergeMem(m, bs, k), bs, top, k,
                if k + 2 < |bs| then {bs[k].at, bs[k + 1].at, bs[k + 2].at} else {bs[k].at, bs[k + 1].at});
  }

  lemma MergeAtParts(bs: seq<Block>, k: nat, j: nat)
    requires k + 1 < |bs| && !bs[k].used && !bs[k + 1].used
    ensures var cs := MergeAt(bs, k);
      && |cs| == |bs| - 1
      && (j < k ==> cs[j] == bs[j]) && (k < j < |cs| ==> cs[j] == bs[j + 1])
      && cs[k] == Block(bs[k].at, bs[k].len + bs[k + 1].len, false)
  {
  }

  lemma MergeTags(m: seq<Granule>, bs: seq<Block>, top: nat, k: nat)
    requires Mergeable(m, bs, top, k) && Tags(m, bs)
    ensures Tags(MergeMem(m, bs, k), MergeAt(bs, k))
  {
    hide Header, SetNext, SetPrev, MergeAt, MergeMem;
    forall j | 0 <= j < |MergeAt(bs, k)|
      ensures Tagged(MergeMem(m, bs, k), MergeAt(bs, k), j)
    {
      MergeTag(m, bs, top, k, j);
    }
  }

  lemma MergeTag(m: seq<Granule>, bs: seq<Block>, top: nat, k: nat, j: nat)
    requires Mergeable(m, bs, top, k) && Tags(m, bs) && j < |MergeAt(bs, k)|
    ensures Tagged(MergeMem(m, bs, k), MergeAt(bs, k), j)
  {
    hide Header, SetNext, SetPrev, MergeAt;
    var l := bs[k].len + bs[k + 1].len;
    MergeAtParts(bs, k, j);
    if j > 0 {
      MergeAtParts(bs, k, j - 1);
    }
    Ordered(bs, top, k, k + 1);
    if k + 2 < |bs| {
      Ordered(bs, top, k + 1, k + 2);
    }
    if j < k {
      assert Tagged(m, bs, j);
      Ordered(bs, top, j, k);
    } else if j == k {
      assert Tagged(m, bs, k);
      HeaderUpdates(PrevLen(bs, k), bs[k].len, false, l, false);
    } else {
      assert Tagged(m, bs, j + 1);
      if j == k + 1 {
        HeaderUpdates(bs[k + 1].len, bs[k + 2].len, bs[k + 2].used, l, false);
      } else {
        Ordered(bs, top, k + 2, j + 1);
      }
    }
  }

  lemma GrowTags(m: seq<Granule>, bs: seq<Block>, top: nat, n: nat)
    requires Tiles(bs, top) && Tags(m, bs) && top + n + 1 <= |m| < FIELD
    requires bs == [] || bs[|bs| - 1].len < FIELD
    ensures var cs := bs + [Block(top, n + 1, true)];
      var prev := if bs == [] then 0 else bs[|bs| - 1].len;
      && Tags(m[top := Header(prev, n + 1, true)], cs) && Tiles(cs, top + n + 1)
      && SameData(m, m[top := Header(prev, n + 1, true)], bs)
  {
    hide Header;
    var prev := if bs == [] then 0 else bs[|bs| - 1].len;
    var cs, m' := bs + [Block(top, n + 1, true)], m[top := Header(prev, n + 1, true)];
    forall j | 0 <= j < |cs|
      ensures Tagged(m', cs, j)
    {
      if j < |bs| {
        assert Tagged(m, bs, j);
        Below(bs, top, j);
      }
    }
    forall j | 0 < j < |cs|
      ensures Adjacent(cs, j)
    {
      assert j < |bs| ==> Adjacent(bs, j);
    }
    forall b, a: nat | b in bs && b.used && a < |m| && InData(b, a)
      ensures m'[a] == m[a]
    {
      var i :| 0 <= i < |bs| && bs[i] == b;
      Inside(bs, top, i, i, a);
    }
  }

  /** Stores into the data of block k leave every header and every other block alone. */
  lemma DataTags(m: seq<Granule>, m': seq<Granule>, bs: seq<Block>, top: nat, k: nat)
    requires Tiles(bs, top) && Tags(m, bs) && k < |bs| && |m'| == |m|
    requires forall a: nat :: a < |m| && !InData(bs[k], a) ==> m'[a] == m[a]
    ensures Tags(m', bs)
    ensures forall b, a: nat :: b in bs && b != bs[k] && a < |m| && InData(b, a) ==> m'[a] == m[a]
  {
    forall j | 0 <= j < |bs|
      ensures Tagged(m', bs, j)
    {
      assert Tagged(m, bs, j);
      if InData(bs[k], bs[j].at) {
        Inside(bs, top, k, j, bs[j].at);
      }
    }
    forall b, a: nat | b in bs && b != bs[k] && a < |m| && InData(b, a)
      ensures m'[a] == m[a]
    {
      var i :| 0 <= i < |bs| && bs[i] == b;
      Inside(bs, top, i, k, a);
    }
  }

  lemma SameTrans(m: seq<Granule>, m': seq<Granule>, m'': seq<Granule>, bs: seq<Block>, cs: seq<Block>)
    requires SameData(m, m', bs) && SameData(m', m'', cs)
    requires forall o: nat, len: nat :: Live(bs, o, len) ==> Live(cs, o, len)
    ensures SameData(m, m'', bs)
  {
    forall b, a: nat | b in bs && b.used && a < |m| && InData(b, a)
      ensures m''[a] == m[a]
    {
      assert Live(bs, b.at, b.len);
      assert m'[a] == m[a];
    }
  }

  lemma FirstFitIs(bs: seq<Block>, n: nat, k: nat)
    requires k <= |bs| && (forall j :: 0 <= j < k ==> !Fits(bs[j], n)) && (k < |bs| ==> Fits(bs[k], n))
    ensures FirstFit(bs, n) == k
  {
  }

  lemma SplitSmall(bs: seq<Block>, k: nat, n: nat)
    requires k < |bs| && Fits(bs[k], n) && bs[k].len - 1 - n < 2
    ensures SplitAt(bs, k, n) == bs
  {
  }

  lemma SameRefl(m: seq<Granule>, bs: seq<Block>)
    ensures SameData(m, m, bs)
  {
  }

  lemma SplitLive(bs: seq<Block>, k: nat, n: nat, o: nat, len: nat)
    requires k < |bs| && Fits(bs[k], n)
    ensures Live(bs, o, len) ==> Live(SplitAt(bs, k, n), o, len)
    ensures k < |SplitAt(bs, k, n)| && SplitAt(bs, k, n)[k].at == bs[k].at
  {
    var cs := SplitAt(bs, k, n);
    if Live(bs, o, len) {
      var i :| 0 <= i < |bs| && bs[i] == Block(o, len, true);
      assert cs[if i < k then i else i + |cs| - |bs|] == bs[i];
    }
  }

  /** Writing a header leaves all data alone. */
  lemma HeaderData(m: seq<Granule>, bs: seq<Block>, top: nat, k: nat, g: Granule)
    requires Tiles(bs, top) && k < |bs| && bs[k].at < |m|
    ensures SameData(m, m[bs[k].at := g], bs)
  {
    var m' := m[bs[k].at := g];
    forall b, a: nat | b in bs && b.used && a < |m| && InData(b, a)
      ensures m'[a] == m[a]
    {
      var i :| 0 <= i < |bs| && bs[i] == b;
      Inside(bs, top, i, k, a);
    }
  }

  /** What callers see of a taken block: it is new, apart from all live blocks, and nothing
      else became live or stopped being live. */
  ghost predicate NewBlock(bs: seq<Block>, cs: seq<Block>, at: nat, len: nat) {
    && (forall o: nat, l: nat :: Live(cs, o, l) <==> Live(bs, o, l) || (o == at && l == len))
    && (forall o: nat, l: nat :: Live(bs, o, l) ==> o + l <= at || at + len <= o)
  }

  lemma TakenNew(bs: seq<Block>, top: nat, k: nat, n: nat)
    requires Tiles(bs, top) && k < |bs| && Fits(bs[k], n)
    ensures k < |Taken(bs, k, n)| && NewBlock(bs, Taken(bs, k, n), bs[k].at, Taken(bs, k, n)[k].len)
    ensures Taken(bs, k, n)[k].at == bs[k].at && Taken(bs, k, n)[k].used && n + 1 <= Taken(bs, k, n)[k].len <= n + 2
  {
    var cs := Taken(bs, k, n);
    TakenLive(bs, k, n, 0, 0);
    forall o: nat, l: nat
      ensures Live(cs, o, l) <==> Live(bs, o, l) || (o == bs[k].at && l == cs[k].len)
      ensures Live(bs, o, l) ==> o + l <= bs[k].at || bs[k].at + cs[k].len <= o
    {
      TakenLive(bs, k, n, o, l);
      if Live(bs, o, l) {
        var i :| 0 <= i < |bs| && bs[i] == Block(o, l, true);
        assert i != k;
        if i < k { Ordered(bs, top, i, k); } else { Ordered(bs, top, k, i); }
      }
    }
  }

  lemma GrownNew(bs: seq<Block>, top: nat, n: nat)
    requires Tiles(bs, top)
    ensures NewBlock(bs, bs + [Block(top, n + 1, true)], top, n + 1)
  {
    forall o: nat, l: nat | Live(bs, o, l)
      ensures o + l <= top
    {
      var i :| 0 <= i < |bs| && bs[i] == Block(o, l, true);
      Below(bs, top, i);
    }
  }

  lemma GrownTight(bs: seq<Block>, top: nat, n: nat)
    requires Tight(bs)
    ensures Tight(bs + [Block(top, n + 1, true)])
  {
    var cs := bs + [Block(top, n + 1, true)];
    forall j | 0 < j < |cs| ensures OneUsed(cs, j) { assert j < |bs| ==> OneUsed(bs, j); }
  }

  lemma MergeNoop(bs: seq<Block>, k: nat)
    requires k + 1 < |bs| && (bs[k].used || bs[k + 1].used)
    ensures MergeAt(bs, k) == bs
  {
  }

  lemma MergeSize(bs: seq<Block>, top: nat, k: nat)
    requires Tiles(bs, top) && k + 1 < |bs|
    ensures bs[k].len + bs[k + 1].len <= top && bs[k].at < bs[k + 1].at < top && (k + 2 < |bs| ==> bs[k + 2].at < top)
    ensures k + 2 < |bs| <==> bs[k + 1].at + bs[k + 1].len != top
    ensures bs[k].at + bs[k].len == bs[k + 1].at
    ensures k + 2 < |bs| ==> bs[k + 1].at + bs[k + 1].len == bs[k + 2].at
  {
    assert Adjacent(bs, k + 1);
    Below(bs, top, k + 1);
    if k + 2 < |bs| {
      assert Adjacent(bs, k + 2);
      Below(bs, top, k + 2);
    }
  }

  /** Block k can be found again by its address. */
  lemma AtUnique(bs: seq<Block>, top: nat, i: nat, k: nat)
    requires Tiles(bs, top) && i < |bs| && k < |bs| && bs[i].at == bs[k].at
    ensures i == k
  {
    if i < k { Ordered(bs, top, i, k); } else if k < i { Ordered(bs, top, k, i); }
  }

  /** The data of a freed block no longer matters; all other live data is the same. */
  lemma WipedData(m: seq<Granule>, m': seq<Granule>, bs: seq<Block>, top: nat, k: nat)
    requires Tiles(bs, top) && k < |bs| && |m'| == |m|
    requires forall b, a: nat :: b in bs && b != bs[k] && a < |m| && InData(b, a) ==> m'[a] == m[a]
    ensures SameData(m, m', Marked(bs, k, false))
  {
    var cs := Marked(bs, k, false);
    forall b, a: nat | b in cs && b.used && a < |m| && InData(b, a)
      ensures m'[a] == m[a]
    {
      var i :| 0 <= i < |cs| && cs[i] == b;
      assert bs[i] == b;
      if b == bs[k] {
        AtUnique(bs, top, i, k);
      }
    }
  }

  lemma SameLess(m: seq<Granule>, m': seq<Granule>, bs: seq<Block>, cs: seq<Block>)
    requires SameData(m, m', bs) && (forall o: nat, len: nat :: Live(cs, o, len) ==> Live(bs, o, len))
    ensures SameData(m, m', cs)
  {
    forall b, a: nat | b in cs && b.used && a < |m| && InData(b, a)
      ensures m'[a] == m[a]
    {
      assert Live(cs, b.at, b.len);
      assert Block(b.at, b.len, true) == b;
    }
  }

  lemma UpAt(bs: seq<Block>, k: nat)
    requires k < |bs|
    ensures k < |MergeUp(bs, k)| && MergeUp(bs, k)[k].at == bs[k].at
    ensures k > 0 ==> MergeUp(bs, k)[k - 1] == bs[k - 1]
  {
  }

  lemma AtZero(bs: seq<Block>, top: nat, k: nat)
    requires Tiles(bs, top) && k < |bs|
    ensures k == 0 <==> bs[k].at == 0
  {
    if k > 0 {
      Ordered(bs, top, 0, k);
    }
  }

  lemma UpLive(bs: seq<Block>, k: nat, o: nat, len: nat)
    requires k < |bs|
    ensures Live(MergeUp(bs, k), o, len) <==> Live(bs, o, len)
  {
    if k + 1 < |bs| {
      MergeLive(bs, k, o, len);
    }
  }

  // ---------------------------------------------------------------- runs

  // ---------------------------------------------------------------- free memory is wiped

  /** Every granule of a free block behind its header reads 0xdeadbeef. */
  ghost predicate Dead(m: seq<Granule>, bs: seq<Block>) {
    forall k, a: nat :: 0 <= k < |bs| && a < |m| && InFree(bs, k, a) ==> m[a] == Granule(0xdead_beef, 0xdead_beef)
  }

  ghost predicate InFree(bs: seq<Block>, k: nat, a: nat)
    requires k < |bs|
  {
    !bs[k].used && InData(bs[k], a)
  }

  /** A granule that was in a free block and has not changed is still dead. */
  lemma StillDead(m: seq<Granule>, bs: seq<Block>, k: nat, a: nat)
    requires Dead(m, bs) && k < |bs| && InFree(bs, k, a) && a < |m|
    ensures m[a] == DEADBEEF
  {
  }

  lemma SplitDead(m: seq<Granule>, bs: seq<Block>, top: nat, k: nat, n: nat)
    requires Dead(m, bs) && Tiles(bs, top) && top <= |m| < FIELD && k < |bs| && Fits(bs[k], n) && bs[k].len - 1 - n >= 2
    requires bs[k].len < FIELD && bs[k].at + bs[k].len <= |m| && (k + 1 < |bs| ==> bs[k].at + bs[k].len < |m|)
    ensures Dead(SplitMem(m, bs, k, n), SplitAt(bs, k, n))
  {
    hide Header, SetNext, SetPrev, Dead, Tiles;
    var cs, m' := SplitAt(bs, k, n), SplitMem(m, bs, k, n);
    assert k + 1 < |bs| ==> bs[k + 1].at == bs[k].at + bs[k].len by { TilesAt(bs, top, k); }
    forall j, a: nat | 0 <= j < |cs| && a < |m'| && InFree(cs, j, a)
      ensures m'[a] == DEADBEEF
    {
      SplitAtParts(bs, k, n, j);
      var i := if j <= k then j else j - 1;
      assert InFree(bs, i, a);
      StillDead(m, bs, i, a);
      Inside(bs, top, i, k, a);
      if k + 1 < |bs| { Inside(bs, top, i, k + 1, a); }
    }
    DeadIf(m', cs);
  }

  lemma DeadIf(m: seq<Granule>, bs: seq<Block>)
    requires forall k, a: nat :: 0 <= k < |bs| && a < |m| && InFree(bs, k, a) ==> m[a] == DEADBEEF
    ensures Dead(m, bs)
  {
  }

  lemma TilesAt(bs: seq<Block>, top: nat, k: nat)
    requires Tiles(bs, top) && k < |bs|
    ensures k + 1 < |bs| ==> bs[k + 1].at == bs[k].at + bs[k].len
    ensures bs[k].len >= 1
  {
    assert k + 1 < |bs| ==> Adjacent(bs, k + 1);
  }

  lemma MergeDead(m: seq<Granule>, bs: seq<Block>, top: nat, k: nat)
    requires Dead(m, bs) && Mergeable(m, bs, top, k)
    ensures Dead(MergeMem(m, bs, k), MergeAt(bs, k))
  {
    hide Header, SetNext, SetPrev, Dead, Tiles;
    var cs, m' := MergeAt(bs, k), MergeMem(m, bs, k);
    TilesAt(bs, top, k);
    TilesAt(bs, top, k + 1);
    forall j, a: nat | 0 <= j < |cs| && a < |m'| && InFree(cs, j, a)
      ensures m'[a] == DEADBEEF
    {
      MergeAtParts(bs, k, j);
      if a != bs[k + 1].at {
        var i := if j < k then j else if j > k then j + 1 else if InData(bs[k], a) then k else k + 1;
        assert InFree(bs, i, a);
        StillDead(m, bs, i, a);
        Inside(bs, top, i, k, a);
        if k + 2 < |bs| { Inside(bs, top, i, k + 2, a); }
      }
    }
    DeadIf(m', cs);
  }

  /** Taking a block, or changing a header, adds nothing to the free memory. */
  lemma HeaderDead(m: seq<Granule>, bs: seq<Block>, top: nat, k: nat, g: Granule)
    requires Dead(m, bs) && Tiles(bs, top) && k < |bs| && bs[k].at < |m|
    ensures Dead(m[bs[k].at := g], Marked(bs, k, true))
  {
    hide Dead, Tiles;
    var cs, m' := Marked(bs, k, true), m[bs[k].at := g];
    forall j, a: nat | 0 <= j < |cs| && a < |m'| && InFree(cs, j, a)
      ensures m'[a] == DEADBEEF
    {
      assert InFree(bs, j, a);
      StillDead(m, bs, j, a);
      Inside(bs, top, j, k, a);
    }
    DeadIf(m', cs);
  }

  /** A used block at the top, whose header lies past all others. */
  lemma GrowDead(m: seq<Granule>, bs: seq<Block>, top: nat, n: nat, g: Granule)
    requires Dead(m, bs) && Tiles(bs, top) && top < |m|
    ensures Dead(m[top := g], bs + [Block(top, n + 1, true)])
  {
    hide Dead, Tiles;
    var cs, m' := bs + [Block(top, n + 1, true)], m[top := g];
    forall j, a: nat | 0 <= j < |cs| && a < |m'| && InFree(cs, j, a)
      ensures m'[a] == DEADBEEF
    {
      assert InFree(bs, j, a);
      StillDead(m, bs, j, a);
      Inside(bs, top, j, j, a);
    }
    DeadIf(m', cs);
  }

  /** A block that is freed and wiped. */
  lemma FreedDead(m: seq<Granule>, m': seq<Granule>, bs: seq<Block>, top: nat, k: nat)
    requires Dead(m, bs) && Tiles(bs, top) && k < |bs| && |m'| == |m|
    requires forall a: nat :: a < |m| && InData(bs[k], a) ==> m'[a] == DEADBEEF
    requires forall a: nat :: a < |m| && !InData(bs[k], a) && a != bs[k].at ==> m'[a] == m[a]
    ensures Dead(m', Marked(bs, k, false))
  {
    hide Dead, Tiles;
    var cs := Marked(bs, k, false);
    forall j, a: nat | 0 <= j < |cs| && a < |m'| && InFree(cs, j, a)
      ensures m'[a] == DEADBEEF
    {
      if j != k {
        assert InFree(bs, j, a);
        StillDead(m, bs, j, a);
        Inside(bs, top, j, k, a);
      }
    }
    DeadIf(m', cs);
  }

  /** The free block that block k has become part of. */
  function FreedBlock(bs: seq<Block>, k: nat): Block
    requires k < |bs|
  {
    var up := if k + 1 < |bs| && !bs[k + 1].used then bs[k].len + bs[k + 1].len else bs[k].len;
    if k > 0 && !bs[k - 1].used then Block(bs[k - 1].at, bs[k - 1].len + up, false)
    else Block(bs[k].at, up, false)
  }

  lemma FreedFree(bs: seq<Block>, top: nat, k: nat)
    requires Tiles(bs, top) && k < |bs|
    ensures FreedBlock(bs, k) in Freed(bs, k)
    ensures forall a: nat :: InData(bs[k], a) ==> InData(FreedBlock(bs, k), a)
  {
    assert k > 0 ==> Adjacent(bs, k);
    var b1 := MergeUp(Marked(bs, k, false), k);
    var up := if k + 1 < |bs| && !bs[k + 1].used then bs[k].len + bs[k + 1].len else bs[k].len;
    assert b1[k] == Block(bs[k].at, up, false);
    var b2 := MergeDown(b1, k);
    if k > 0 && !bs[k - 1].used {
      assert b1[k - 1] == bs[k - 1];
      assert b2[k - 1] == FreedBlock(bs, k);
    } else {
      assert b2[k] == FreedBlock(bs, k);
    }
  }

  /** A store into a used block. */
  lemma StoredDead(m: seq<Granule>, m': seq<Granule>, bs: seq<Block>, top: nat, k: nat)
    requires Dead(m, bs) && Tiles(bs, top) && k < |bs| && bs[k].used && |m'| == |m|
    requires forall a: nat :: a < |m| && !InData(bs[k], a) ==> m'[a] == m[a]
    ensures Dead(m', bs)
  {
    hide Dead, Tiles;
    forall j, a: nat | 0 <= j < |bs| && a < |m'| && InFree(bs, j, a)
      ensures m'[a] == DEADBEEF
    {
      StillDead(m, bs, j, a);
      Inside(bs, top, j, k, a);
    }
    DeadIf(m', bs);
  }

  // ---------------------------------------------------------------- what fits, in bytes

  /** The block is free and has size bytes. */
  predicate HasRoom(b: Block, size: nat) { !b.used && 8 * (b.len - 1) >= size }

  /** What is left of block b when size bytes are taken from it: nothing, unless it is at least
      16 bytes more than the request rounded up to 8; then the rest is a free block. */
  ghost predicate TookFrom(b: Block, size: nat, len: nat, cs: seq<Block>) {
    var want := (size + 7) / 8 * 8;
    if 8 * (b.len - 1) >= want + 16 then
      8 * (len - 1) == want && Block(b.at + len, b.len - len, false) in cs
    else len == b.len
  }

  /** Block k is the lowest that has size bytes. */
  predicate Lowest(bs: seq<Block>, k: nat, size: nat) {
    k < |bs| && HasRoom(bs[k], size) && forall j :: 0 <= j < k ==> !HasRoom(bs[j], size)
  }

  predicate NoneHasRoom(bs: seq<Block>, size: nat) { forall j :: 0 <= j < |bs| ==> !HasRoom(bs[j], size) }

  /** First fit finds it. */
  lemma LowestIs(bs: seq<Block>, n: nat, size: nat)
    requires n == (size + 7) / 8
    ensures forall k: nat :: Lowest(bs, k, size) <==> k == FirstFit(bs, n) < |bs|
    ensures NoneHasRoom(bs, size) <==> FirstFit(bs, n) == |bs|
  {
    hide Fits, HasRoom;
    forall b ensures Fits(b, n) <==> HasRoom(b, size) { FitsBytes(b, n, size); }
  }

  lemma FitsBytes(b: Block, n: nat, size: nat)
    requires n == (size + 7) / 8
    ensures Fits(b, n) <==> HasRoom(b, size)
  {
  }

  lemma TakenLen(bs: seq<Block>, k: nat, n: nat, size: nat)
    requires k < |bs| && Fits(bs[k], n) && n == (size + 7) / 8
    ensures k < |Taken(bs, k, n)| && TookFrom(bs[k], size, Taken(bs, k, n)[k].len, Taken(bs, k, n))
  {
    if bs[k].len - 1 - n >= 2 {
      assert Taken(bs, k, n)[k + 1] == Block(bs[k].at + n + 1, bs[k].len - 1 - n, false);
    }
  }

  /** The heap as callers drive it: a request for n granules that sbrk may refuse, or the free of
      the k-th block. */
  datatype HeapOp = Request(n: nat, refused: bool) | Release(k: nat)

  datatype HeapState = HeapState(bs: seq<Block>, top: nat)

  function HeapStep(h: HeapState, op: HeapOp): HeapState {
    match op
    case Request(n, refused) =>
      var k := FirstFit(h.bs, n);
      if k < |h.bs| then HeapState(Taken(h.bs, k, n), h.top)
      else if refused then h
      else HeapState(h.bs + [Block(h.top, n + 1, true)], h.top + n + 1)
    case Release(k) =>
      if k < |h.bs| && h.bs[k].used && h.bs[k].at + 1 < h.top then HeapState(Freed(h.bs, k), h.top) else h
  }

  function HeapAfter(h: HeapState, ops: seq<HeapOp>): HeapState
    decreases |ops|
  {
    if ops == [] then h else HeapAfter(HeapStep(h, ops[0]), ops[1..])
  }

  lemma HeapStepOk(h: HeapState, op: HeapOp)
    requires Tiles(h.bs, h.top) && Tight(h.bs)
    ensures Tiles(HeapStep(h, op).bs, HeapStep(h, op).top) && Tight(HeapStep(h, op).bs) && HeapStep(h, op).top >= h.top
  {
    hide Tiles, Tight, SplitAt, MergeAt, FirstFit;
    match op
    case Request(n, refused) =>
      var k := FirstFit(h.bs, n);
      if k < |h.bs| {
        TakenTight(h.bs, k, n);
        SplitTiles(h.bs, h.top, k, n);
        SplitLive(h.bs, k, n, 0, 0);
        MarkTiles(SplitAt(h.bs, k, n), h.top, k, true);
      } else {
        GrownTight(h.bs, h.top, n);
        GrownTiles(h.bs, h.top, n);
      }
    case Release(k) =>
      if k < |h.bs| && h.bs[k].used && h.bs[k].at + 1 < h.top {
        FreedTight(h.bs, k);
        MarkTiles(h.bs, h.top, k, false);
        var b1 := Marked(h.bs, k, false);
        UpAt(b1, k);
        if k + 1 < |b1| {
          MergeTiles(b1, h.top, k);
        }
        if k > 0 {
          MergeTiles(MergeUp(b1, k), h.top, k - 1);
        }
      }
  }

  lemma MarkTiles(bs: seq<Block>, top: nat, k: nat, u: bool)
    requires Tiles(bs, top) && k < |bs|
    ensures Tiles(Marked(bs, k, u), top)
  {
    var cs := Marked(bs, k, u);
    forall j | 0 < j < |cs| ensures Adjacent(cs, j) { assert Adjacent(bs, j); }
  }

  lemma GrownTiles(bs: seq<Block>, top: nat, n: nat)
    requires Tiles(bs, top)
    ensures Tiles(bs + [Block(top, n + 1, true)], top + n + 1)
  {
    var cs := bs + [Block(top, n + 1, true)];
    forall j | 0 < j < |cs| ensures Adjacent(cs, j) { assert j < |bs| ==> Adjacent(bs, j); }
  }

  /** Every run from the empty heap: the blocks tile the heap, no two free blocks touch, and with
      nothing live at most one block is left. */
  lemma {:induction false} HeapRun(h: HeapState, ops: seq<HeapOp>)
    requires Tiles(h.bs, h.top) && Tight(h.bs)
    ensures var z := HeapAfter(h, ops);
      && Tiles(z.bs, z.top) && Tight(z.bs)
      && ((forall k :: 0 <= k < |z.bs| ==> !z.bs[k].used) ==> |z.bs| <= 1)
    decreases |ops|
  {
    hide Tiles, Tight, HeapStep;
    if ops == [] {
      if forall k :: 0 <= k < |h.bs| ==> !h.bs[k].used {
        AllFreeIsOneBlock(h.bs);
      }
    } else {
      HeapStepOk(h, ops[0]);
      HeapRun(HeapStep(h, ops[0]), ops[1..]);
    }
  }
}
