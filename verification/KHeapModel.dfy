/** kern/lib/kheap.c, the subpage allocator, as a value: the pageref table, its lists, the pages
    with their intrusive free lists, and the invariant over all of it. */
module KHeapModel {
  const NREFS := 256                 // NPAGEREFS
  const NIL := 256                   // a NULL pageref pointer
  const PAGE := 4096
  const INVALID := 0xffff            // INVALID_OFFSET
  const NSIZES := 8

  function Size(t: nat): (r: nat)
    requires t < NSIZES
    ensures 16 <= r <= 2048 && r % 4 == 0
  {
    [16, 32, 64, 128, 256, 512, 1024, 2048][t]
  }

  function PerPage(t: nat): (n: nat)
    requires t < NSIZES
    ensures n * Size(t) == PAGE && n >= 2
  {
    [256, 128, 64, 32, 16, 8, 4, 2][t]
  }

  function PageAddr(pab: nat): nat { pab / PAGE * PAGE }
  function BlockType(pab: nat): nat { pab % PAGE }

  // ---------------------------------------------------------------- lists of pagerefs

  datatype Ref = Ref(nextSame: nat, nextAll: nat, pab: nat, off: nat, nfree: nat)

  /** The two lists a pageref is on. */
  datatype Which = Same | All

  function Link(r: Ref, w: Which): nat { if w == Same then r.nextSame else r.nextAll }
  function SetLink(r: Ref, w: Which, v: nat): Ref { if w == Same then r.(nextSame := v) else r.(nextAll := v) }

  function Nth(list: seq<nat>, j: nat): nat { if j < |list| then list[j] else NIL }

  predicate Linked(rs: seq<Ref>, w: Which, list: seq<nat>, j: nat)
    requires j < |list|
  {
    list[j] < |rs| && Link(rs[list[j]], w) == Nth(list, j + 1)
  }

  /** Following the links from head gives list. */
  ghost predicate Chain(rs: seq<Ref>, w: Which, head: nat, list: seq<nat>) {
    head == Nth(list, 0) && forall j :: 0 <= j < |list| ==> Linked(rs, w, list, j)
  }

  predicate Distinct(list: seq<nat>) { forall i, j :: 0 <= i < j < |list| ==> list[i] != list[j] }

  function Without(list: seq<nat>, p: nat): seq<nat> {
    if list == [] then [] else if list[0] == p then list[1..] else [list[0]] + Without(list[1..], p)
  }

  /** The pagerefs of list whose block type is t. */
  function Filter(list: seq<nat>, rs: seq<Ref>, t: nat): seq<nat> {
    if list == [] then []
    else if list[0] < |rs| && BlockType(rs[list[0]].pab) == t then [list[0]] + Filter(list[1..], rs, t)
    else Filter(list[1..], rs, t)
  }

  lemma ChainPush(rs: seq<Ref>, rs': seq<Ref>, w: Which, head: nat, list: seq<nat>, i: nat)
    requires Chain(rs, w, head, list) && i < |rs| == |rs'| && Link(rs'[i], w) == head
    requires forall k :: k in list && k < |rs| ==> Link(rs'[k], w) == Link(rs[k], w)
    ensures Chain(rs', w, i, [i] + list)
  {
    var l := [i] + list;
    forall j | 0 <= j < |l|
      ensures Linked(rs', w, l, j)
    {
      if j > 0 {
        assert Linked(rs, w, list, j - 1);
      }
    }
  }

  lemma ChainFrame(rs: seq<Ref>, rs': seq<Ref>, w: Which, head: nat, list: seq<nat>)
    requires Chain(rs, w, head, list) && |rs'| == |rs|
    requires forall i :: i in list && i < |rs| ==> Link(rs'[i], w) == Link(rs[i], w)
    ensures Chain(rs', w, head, list)
  {
    forall j | 0 <= j < |list| ensures Linked(rs', w, list, j) { assert Linked(rs, w, list, j); }
  }

  /** Unlinking the k-th element of a chain. */
  lemma ChainCut(rs: seq<Ref>, w: Which, head: nat, list: seq<nat>, k: nat)
    requires Chain(rs, w, head, list) && Distinct(list) && k < |list|
    ensures list[k] < |rs|
    ensures k == 0 ==> Chain(rs, w, Link(rs[list[0]], w), list[1..])
    ensures k > 0 ==> list[k - 1] < |rs|
    ensures k > 0 ==>
              var rs' := rs[list[k - 1] := SetLink(rs[list[k - 1]], w, Link(rs[list[k]], w))];
              Chain(rs', w, head, list[..k] + list[k + 1..])
  {
    assert Linked(rs, w, list, k);
    if k == 0 {
      forall j | 0 <= j < |list| - 1 ensures Linked(rs, w, list[1..], j) { assert Linked(rs, w, list, j + 1); }
    } else {
      assert Linked(rs, w, list, k - 1);
      var rs', l := rs[list[k - 1] := SetLink(rs[list[k - 1]], w, Link(rs[list[k]], w))], list[..k] + list[k + 1..];
      forall j | 0 <= j < |l|
        ensures Linked(rs', w, l, j)
      {
        assert Linked(rs, w, list, if j < k then j else j + 1);
      }
    }
  }

  lemma CutTail(list: seq<nat>, k: nat)
    requires 0 < k < |list|
    ensures [list[0]] + (list[1..][..k - 1] + list[1..][k..]) == list[..k] + list[k + 1..]
  {
    assert list[..k] == [list[0]] + list[1..][..k - 1];
    assert list[k + 1..] == list[1..][k..];
  }

  lemma {:induction false} WithoutAt(list: seq<nat>, k: nat)
    requires k < |list| && Distinct(list)
    ensures Without(list, list[k]) == list[..k] + list[k + 1..]
  {
    if k == 0 {
      assert list[..0] + list[1..] == list[1..];
    } else {
      assert Distinct(list[1..]);
      WithoutAt(list[1..], k - 1);
      CutTail(list, k);
      hide Distinct;
      assert list[1..][k - 1] == list[k] && list[0] != list[k];
    }
  }

  lemma CutMember(list: seq<nat>, k: nat, i: nat)
    requires k < |list| && Distinct(list)
    ensures i in list[..k] + list[k + 1..] <==> i in list && i != list[k]
  {
    var l := list[..k] + list[k + 1..];
    if i in list && i != list[k] {
      var j :| 0 <= j < |list| && list[j] == i;
      assert l[if j < k then j else j - 1] == i;
    }
  }

  lemma WithoutMember(list: seq<nat>, p: nat, i: nat)
    requires Distinct(list)
    ensures i in Without(list, p) <==> i in list && i != p
    ensures Distinct(Without(list, p))
    ensures p !in list ==> Without(list, p) == list
  {
    hide Without;
    if p in list {
      var k :| 0 <= k < |list| && list[k] == p;
      WithoutAt(list, k);
      CutMember(list, k, i);
    } else {
      WithoutNone(list, p);
    }
  }

  lemma {:induction false} WithoutNone(list: seq<nat>, p: nat)
    requires p !in list
    ensures Without(list, p) == list
  {
    if list != [] {
      WithoutNone(list[1..], p);
    }
  }

  lemma {:induction false} FilterMember(list: seq<nat>, rs: seq<Ref>, t: nat, i: nat)
    ensures i in Filter(list, rs, t) <==> i in list && i < |rs| && BlockType(rs[i].pab) == t
  {
    if list != [] {
      FilterMember(list[1..], rs, t, i);
      assert list == [list[0]] + list[1..];
    }
  }

  lemma {:induction false} FilterDistinct(list: seq<nat>, rs: seq<Ref>, t: nat)
    requires Distinct(list)
    ensures Distinct(Filter(list, rs, t))
  {
    if list != [] {
      FilterDistinct(list[1..], rs, t);
      var r := Filter(list[1..], rs, t);
      FilterMember(list[1..], rs, t, list[0]);
      assert list[0] !in list[1..];
      assert list[0] !in r;
    }
  }

  lemma {:induction false} FilterWithout(list: seq<nat>, rs: seq<Ref>, t: nat, p: nat)
    requires Distinct(list)
    ensures Filter(Without(list, p), rs, t) == Without(Filter(list, rs, t), p)
  {
    if list != [] {
      FilterWithout(list[1..], rs, t, p);
      if list[0] == p {
        FilterMember(list[1..], rs, t, p);
        assert p !in list[1..];
        if !(p < |rs| && BlockType(rs[p].pab) == t) {
          WithoutNone(Filter(list[1..], rs, t), p);
        }
      } else {
        assert Without(list, p) == [list[0]] + Without(list[1..], p);
        assert ([list[0]] + Without(list[1..], p))[1..] == Without(list[1..], p);
        if list[0] < |rs| && BlockType(rs[list[0]].pab) == t {
          assert ([list[0]] + Filter(list[1..], rs, t))[1..] == Filter(list[1..], rs, t);
        }
      }
    }
  }

  lemma {:induction false} FilterFrame(list: seq<nat>, rs: seq<Ref>, rs': seq<Ref>, t: nat)
    requires |rs'| == |rs| && (forall i :: i in list && i < |rs| ==> rs'[i].pab == rs[i].pab)
    ensures Filter(list, rs', t) == Filter(list, rs, t)
  {
    if list != [] {
      assert list[0] in list && forall i :: i in list[1..] ==> i in list;
      FilterFrame(list[1..], rs, rs', t);
    }
  }

  // ---------------------------------------------------------------- the allocator state

  /** The pageref table, the list heads, the in-use bits as a set, and
      memory as words. all is the list of pagerefs in use, free the free list of each page as
      block addresses, big the multi-page allocations. */
  datatype KS = KS(rs: seq<Ref>, sb: seq<nat>, ab: nat, used: set<nat>, m: seq<nat>,
                   all: seq<nat>, free: seq<seq<nat>>, big: map<nat, nat>)

  predicate Sizes(s: KS) {
    |s.rs| == |s.free| == NREFS && |s.sb| == NSIZES
  }

  function PageOf(s: KS, i: nat): nat { if i < |s.rs| then PageAddr(s.rs[i].pab) else 0 }
  function TypeOf(s: KS, i: nat): nat { if i < |s.rs| then BlockType(s.rs[i].pab) else 0 }

  predicate IsBlock(page: nat, t: nat, a: nat) {
    t < NSIZES && page <= a < page + PAGE && (a - page) % Size(t) == 0
  }

  predicate FreeLinked(m: seq<nat>, fl: seq<nat>, j: nat)
    requires j < |fl|
  {
    fl[j] % 4 == 0 && fl[j] / 4 < |m| && m[fl[j] / 4] == if j + 1 < |fl| then fl[j + 1] else 0
  }

  /** checksubpage: the free list threads nfree distinct blocks of the page. */
  ghost predicate FreeList(m: seq<nat>, page: nat, t: nat, off: nat, nfree: nat, fl: seq<nat>) {
    && nfree == |fl|
    && (if fl == [] then off == INVALID else page + off == fl[0])
    && (forall a :: a in fl ==> IsBlock(page, t, a))
    && Distinct(fl)
    && (forall j :: 0 <= j < |fl| ==> FreeLinked(m, fl, j))
  }

  ghost predicate PageOk(s: KS, i: nat) {
    && i < NREFS && Sizes(s)
    && TypeOf(s, i) < NSIZES && 0 < PageOf(s, i) && PageOf(s, i) + PAGE <= 4 * |s.m|
    && FreeList(s.m, PageOf(s, i), TypeOf(s, i), s.rs[i].off, s.rs[i].nfree, s.free[i])
  }

  /** The lists of one size partition the list of all pages, in the same order, and a pageref's
      bit is set exactly when it is listed. */
  ghost predicate Lists(s: KS) {
    && Sizes(s) && Distinct(s.all) && (forall i :: i in s.all ==> i < NREFS)
    && Chain(s.rs, All, s.ab, s.all)
    && (forall t :: 0 <= t < NSIZES ==> Chain(s.rs, Same, s.sb[t], Filter(s.all, s.rs, t)))
    && (forall i :: i in s.used <==> i in s.all)
  }

  predicate RangesApart(a: nat, n: nat, b: nat, k: nat) { a + n <= b || b + k <= a }

  ghost predicate BigOk(s: KS, b: nat)
    requires b in s.big
  {
    && 0 < b && b % PAGE == 0 && s.big[b] >= 1 && b + PAGE * s.big[b] <= 4 * |s.m|
    && (forall i :: i in s.all ==> RangesApart(PageOf(s, i), PAGE, b, PAGE * s.big[b]))
    && (forall c :: c in s.big && c != b ==> RangesApart(c, PAGE * s.big[c], b, PAGE * s.big[b]))
  }

  /** No two allocated pages or page ranges overlap. */
  ghost predicate Apart(s: KS) {
    && (forall i, j :: i in s.all && j in s.all && i != j ==> PageOf(s, i) != PageOf(s, j))
    && (forall b :: b in s.big ==> BigOk(s, b))
  }

  ghost predicate Pages(s: KS) { forall i :: i in s.all ==> PageOk(s, i) }

  ghost predicate Core(s: KS) { Lists(s) && Pages(s) && Apart(s) }

  /** No listed page is wholly free. */
  ghost predicate NotWhole(s: KS) {
    forall i :: i in s.all && TypeOf(s, i) < NSIZES && i < |s.free| ==> |s.free[i]| < PerPage(TypeOf(s, i))
  }

  ghost predicate Inv(s: KS) { Core(s) && NotWhole(s) }

  // ---------------------------------------------------------------- live blocks

  /** a is an allocated block of pageref i's page. */
  ghost predicate LiveIn(s: KS, i: nat, a: nat) {
    i in s.all && i < |s.free| && IsBlock(PageOf(s, i), TypeOf(s, i), a) && a !in s.free[i]
  }

  ghost predicate Live(s: KS, a: nat, sz: nat) {
    exists i :: LiveIn(s, i, a) && TypeOf(s, i) < NSIZES && Size(TypeOf(s, i)) == sz
  }

  /** Two blocks of a page are the same or do not overlap. */
  lemma BlocksApart(page: nat, t: nat, a: nat, b: nat)
    requires IsBlock(page, t, a) && IsBlock(page, t, b) && a != b
    ensures RangesApart(a, Size(t), b, Size(t))
  {
    var x, y, z := (a - page) / Size(t), (b - page) / Size(t), Size(t);
    assert a == page + x * z && b == page + y * z;
    if x < y {
      assert (y - x) * z >= z;
    } else if y < x {
      assert (x - y) * z >= z;
    }
  }

  lemma LessTimes(x: nat, n: nat, z: nat)
    requires x * z < n * z
    ensures x + 1 <= n && (x + 1) * z <= n * z
  {
    assert x >= n ==> x * z - n * z == (x - n) * z >= 0;
    assert x < n ==> (n - x - 1) * z >= 0;
  }

  lemma BlockEnd(page: nat, t: nat, a: nat)
    requires IsBlock(page, t, a)
    ensures a + Size(t) <= page + PAGE
  {
    var x, z := (a - page) / Size(t), Size(t);
    assert a == page + x * z;
    LessTimes(x, PerPage(t), z);
    assert (x + 1) * z == x * z + z;
  }

  lemma BlockAligned(page: nat, t: nat, a: nat)
    requires IsBlock(page, t, a) && page % 4 == 0
    ensures a % 4 == 0
  {
    var x, z := (a - page) / Size(t), Size(t);
    assert a == page + x * z;
    assert x * z == 4 * (x * (z / 4));
  }

  /** s and s' agree on everything page i depends on. */
  predicate SamePage(s: KS, s': KS, i: nat) {
    && i < NREFS && Sizes(s) && Sizes(s') && |s'.m| == |s.m|
    && s'.rs[i].pab == s.rs[i].pab && s'.rs[i].off == s.rs[i].off && s'.rs[i].nfree == s.rs[i].nfree
    && s'.free[i] == s.free[i]
  }

  lemma PageFrame(s: KS, s': KS, i: nat)
    requires PageOk(s, i) && SamePage(s, s', i)
    requires forall w: nat :: w < |s.m| && PageOf(s, i) <= 4 * w < PageOf(s, i) + PAGE ==> s'.m[w] == s.m[w]
    ensures PageOk(s', i)
  {
    var fl := s.free[i];
    forall j | 0 <= j < |fl|
      ensures FreeLinked(s'.m, fl, j)
    {
      assert FreeLinked(s.m, fl, j) && fl[j] in fl;
    }
  }

  /** Changes to free counts and offsets do not touch the lists. */
  lemma ListsFrame(s: KS, s': KS)
    requires Lists(s) && Sizes(s') && s'.all == s.all && s'.sb == s.sb && s'.ab == s.ab && s'.used == s.used
    requires forall i :: 0 <= i < NREFS ==> s'.rs[i] == s.rs[i].(off := s'.rs[i].off, nfree := s'.rs[i].nfree)
    ensures Lists(s')
  {
    hide Chain, Filter, BlockType;
    ChainFrame(s.rs, s'.rs, All, s.ab, s.all);
    forall t | 0 <= t < NSIZES
      ensures Chain(s'.rs, Same, s'.sb[t], Filter(s'.all, s'.rs, t))
    {
      FilterFrame(s.all, s.rs, s'.rs, t);
      ChainFrame(s.rs, s'.rs, Same, s.sb[t], Filter(s.all, s.rs, t));
    }
  }

  // ---------------------------------------------------------------- taking a block

  /** doalloc: the head of page i's free list is taken. */
  function Pop(s: KS, i: nat): KS
    requires i < NREFS && Sizes(s) && s.free[i] != []
  {
    var fl := s.free[i];
    s.(free := s.free[i := fl[1..]],
       rs := s.rs[i := s.rs[i].(nfree := |fl| - 1,
                               off := if |fl| > 1 && fl[1] >= PageOf(s, i) then fl[1] - PageOf(s, i) else INVALID)])
  }

  lemma PopCore(s: KS, i: nat)
    requires Core(s) && i in s.all && i < NREFS && s.free[i] != []
    ensures Core(Pop(s, i))
  {
    hide Chain, Filter, PageAddr, BlockType;
    var s', fl := Pop(s, i), s.free[i];
    assert PageOk(s, i);
    ListsFrame(s, s');
    forall j | j in s'.all
      ensures PageOk(s', j)
    {
      assert PageOk(s, j);
      if j == i {
        PopList(s.m, PageOf(s, i), TypeOf(s, i), s.rs[i].off, s.rs[i].nfree, fl, s'.rs[i].off);
      } else {
        PageFrame(s, s', j);
      }
    }
    ApartFrame(s, s');
  }

  lemma PopList(m: seq<nat>, page: nat, t: nat, off: nat, n: nat, fl: seq<nat>, off': nat)
    requires FreeList(m, page, t, off, n, fl) && fl != []
    requires off' == if |fl| > 1 && fl[1] >= page then fl[1] - page else INVALID
    ensures FreeList(m, page, t, off', n - 1, fl[1..])
  {
    assert FreeLinked(m, fl, 0);
    assert |fl| > 1 ==> fl[1] in fl;
    forall j | 0 <= j < |fl| - 1 ensures FreeLinked(m, fl[1..], j) { assert FreeLinked(m, fl, j + 1); }
  }

  lemma ApartFrame(s: KS, s': KS)
    requires Apart(s) && |s'.m| == |s.m| && s'.big == s.big
    requires forall i :: i in s'.all ==> i in s.all && PageOf(s', i) == PageOf(s, i)
    ensures Apart(s')
  {
    forall b | b in s'.big ensures BigOk(s', b) { assert BigOk(s, b); }
  }

  /** Exactly the popped block becomes live. */
  lemma PopLive(s: KS, i: nat, k: nat, a: nat)
    requires Core(s) && i in s.all && i < NREFS && s.free[i] != []
    ensures LiveIn(Pop(s, i), k, a) <==> LiveIn(s, k, a) || (k == i && a == s.free[i][0])
    ensures !LiveIn(s, i, s.free[i][0])
  {
    hide Chain, Filter, PageAddr, BlockType;
    var fl := s.free[i];
    assert PageOk(s, i);
    assert IsBlock(PageOf(s, i), TypeOf(s, i), fl[0]);
    assert a in fl <==> a == fl[0] || a in fl[1..];
    assert fl[0] !in fl[1..];
  }

  // ---------------------------------------------------------------- a new page

  /** The free list of a fresh page: its blocks from the top down. */
  function Fresh(page: nat, z: nat, n: nat): seq<nat> {
    if n == 0 then [] else [page + (n - 1) * z] + Fresh(page, z, n - 1)
  }

  lemma {:induction false} FreshAt(page: nat, z: nat, n: nat, j: nat)
    requires j < n
    ensures |Fresh(page, z, n)| == n && Fresh(page, z, n)[j] == page + (n - 1 - j) * z
  {
    if j > 0 {
      FreshAt(page, z, n - 1, j - 1);
    } else if n > 1 {
      FreshAt(page, z, n - 1, 0);
    }
  }

  lemma FreshLen(page: nat, z: nat, n: nat)
    ensures |Fresh(page, z, n)| == n
  {
    if n > 0 {
      FreshAt(page, z, n, 0);
    }
  }

  lemma {:induction false} FreshBelow(page: nat, z: nat, n: nat, a: nat)
    requires z > 0 && a in Fresh(page, z, n)
    ensures a < page + n * z
  {
    assert n * z == (n - 1) * z + z;
    if a != page + (n - 1) * z {
      FreshBelow(page, z, n - 1, a);
    }
  }

  lemma {:induction false} FreshDistinct(page: nat, z: nat, n: nat)
    requires z > 0
    ensures Distinct(Fresh(page, z, n))
  {
    if n > 0 {
      FreshDistinct(page, z, n - 1);
      var rest := Fresh(page, z, n - 1);
      forall a | a in rest ensures a < page + (n - 1) * z { FreshBelow(page, z, n - 1, a); }
      assert forall j :: 0 <= j < |rest| ==> rest[j] in rest;
    }
  }

  lemma BlockIndex(page: nat, t: nat, a: nat) returns (x: nat)
    requires IsBlock(page, t, a)
    ensures x < PerPage(t) && a == page + x * Size(t)
  {
    x := (a - page) / Size(t);
    assert a == page + x * Size(t);
    LessTimes(x, PerPage(t), Size(t));
  }

  lemma IndexBlock(page: nat, t: nat, x: nat)
    requires t < NSIZES && x < PerPage(t)
    ensures IsBlock(page, t, page + x * Size(t))
  {
    var z := Size(t);
    assert (PerPage(t) - x) * z > 0;
    assert x * z % z == 0;
  }

  /** A fresh page's free list has every block of the page. */
  lemma FreshBlocks(page: nat, t: nat, a: nat)
    requires t < NSIZES
    ensures a in Fresh(page, Size(t), PerPage(t)) <==> IsBlock(page, t, a)
  {
    hide Size, PerPage, IsBlock;
    var z, n := Size(t), PerPage(t);
    var f := Fresh(page, z, n);
    FreshLen(page, z, n);
    if a in f {
      var j :| 0 <= j < |f| && f[j] == a;
      FreshAt(page, z, n, j);
      IndexBlock(page, t, n - 1 - j);
    }
    if IsBlock(page, t, a) {
      var x := BlockIndex(page, t, a);
      FreshAt(page, z, n, n - 1 - x);
    }
  }

  lemma Packed(page: nat, t: nat)
    requires page % PAGE == 0 && t < PAGE
    ensures PageAddr(page + t) == page && BlockType(page + t) == t
  {
  }

  /** page .. page + n pages is in memory and apart from everything allocated. */
  ghost predicate Unallocated(s: KS, page: nat, n: nat) {
    && 0 < page && page % PAGE == 0 && n >= 1 && page + PAGE * n <= 4 * |s.m|
    && (forall i :: i in s.all ==> RangesApart(PageOf(s, i), PAGE, page, PAGE * n))
    && (forall b :: b in s.big ==> RangesApart(b, PAGE * s.big[b], page, PAGE * n))
  }

  function NewPage(s: KS, i: nat, page: nat, t: nat, m': seq<nat>): KS
    requires Sizes(s) && i < NREFS && t < NSIZES
  {
    s.(rs := s.rs[i := Ref(s.sb[t], s.ab, page + t, (PerPage(t) - 1) * Size(t), PerPage(t))],
       sb := s.sb[t := i], ab := i, free := s.free[i := Fresh(page, Size(t), PerPage(t))],
       used := s.used + {i}, all := [i] + s.all, m := m')
  }

  /** m' has the fresh free list threaded through the page and is m elsewhere. */
  ghost predicate Threaded(m: seq<nat>, m': seq<nat>, page: nat, t: nat) {
    && t < NSIZES && |m'| == |m|
    && (forall w: nat :: w < |m| && !(page <= 4 * w < page + PAGE) ==> m'[w] == m[w])
    && (forall j :: 0 <= j < |Fresh(page, Size(t), PerPage(t))| ==> FreeLinked(m', Fresh(page, Size(t), PerPage(t)), j))
  }

  lemma FreshList(m: seq<nat>, m': seq<nat>, page: nat, t: nat)
    requires Threaded(m, m', page, t)
    ensures FreeList(m', page, t, (PerPage(t) - 1) * Size(t), PerPage(t), Fresh(page, Size(t), PerPage(t)))
  {
    hide Size, PerPage, IsBlock;
    var z, n := Size(t), PerPage(t);
    FreshAt(page, z, n, 0);
    FreshDistinct(page, z, n);
    forall a | a in Fresh(page, z, n) ensures IsBlock(page, t, a) { FreshBlocks(page, t, a); }
  }

  lemma NewPageLists(s: KS, i: nat, page: nat, t: nat, m': seq<nat>)
    requires Lists(s) && i !in s.all && i < NREFS && t < NSIZES && page % PAGE == 0
    ensures Lists(NewPage(s, i, page, t, m'))
  {
    hide PageAddr, BlockType, PerPage, Size, Fresh;
    hide Chain;
    var s' := NewPage(s, i, page, t, m');
    Packed(page, t);
    ChainPush(s.rs, s'.rs, All, s.ab, s.all, i);
    forall u | 0 <= u < NSIZES
      ensures Chain(s'.rs, Same, s'.sb[u], Filter(s'.all, s'.rs, u))
    {
      FilterFrame(s.all, s.rs, s'.rs, u);
      FilterMember(s.all, s.rs, u, i);
      assert s'.all[0] == i && s'.all[1..] == s.all;
      if u == t {
        ChainPush(s.rs, s'.rs, Same, s.sb[u], Filter(s.all, s.rs, u), i);
      } else {
        ChainFrame(s.rs, s'.rs, Same, s.sb[u], Filter(s.all, s.rs, u));
      }
    }
  }

  lemma NewPageApart(s: KS, i: nat, page: nat, t: nat, m': seq<nat>)
    requires Core(s) && i !in s.all && i < NREFS && t < NSIZES && Unallocated(s, page, 1) && |m'| == |s.m|
    ensures Apart(NewPage(s, i, page, t, m'))
  {
    hide Chain, Filter, PageAddr, BlockType, PerPage, Size, Fresh, FreeList;
    var s' := NewPage(s, i, page, t, m');
    Packed(page, t);
    assert forall j :: j in s'.all ==> PageOf(s', j) == if j == i then page else PageOf(s, j);
    forall b | b in s'.big
      ensures BigOk(s', b)
    {
      assert BigOk(s, b);
    }
  }

  lemma NewPageCore(s: KS, i: nat, page: nat, t: nat, m': seq<nat>)
    requires Core(s) && i !in s.all && i < NREFS && Unallocated(s, page, 1) && Threaded(s.m, m', page, t)
    ensures Core(NewPage(s, i, page, t, m'))
  {
    hide Chain, Filter, PageAddr, BlockType, PerPage, Size, Fresh, FreeList, FreeLinked, Apart;
    var s' := NewPage(s, i, page, t, m');
    NewPageLists(s, i, page, t, m');
    NewPageApart(s, i, page, t, m');
    Packed(page, t);
    FreshList(s.m, m', page, t);
    forall j | j in s'.all
      ensures PageOk(s', j)
    {
      if j != i {
        NewPageFrame(s, i, page, t, m', j);
      }
    }
  }

  lemma NewPageFrame(s: KS, i: nat, page: nat, t: nat, m': seq<nat>, j: nat)
    requires Core(s) && i !in s.all && i < NREFS && Unallocated(s, page, 1) && Threaded(s.m, m', page, t) && j in s.all
    ensures PageOk(NewPage(s, i, page, t, m'), j)
  {
    hide Lists, Chain, Filter, PageAddr, BlockType, PerPage, Size, Fresh, FreeList;
    assert PageOk(s, j);
    PageFrame(s, NewPage(s, i, page, t, m'), j);
  }

  /** A fresh page adds no live block. */
  lemma NewPageLive(s: KS, i: nat, page: nat, t: nat, m': seq<nat>, k: nat, a: nat)
    requires Sizes(s) && i !in s.all && i < NREFS && t < NSIZES && page % PAGE == 0
    ensures LiveIn(NewPage(s, i, page, t, m'), k, a) <==> LiveIn(s, k, a)
  {
    hide PageAddr, BlockType, PerPage, Size, Fresh, IsBlock;
    Packed(page, t);
    if k == i {
      FreshBlocks(page, t, a);
    }
  }

  // ---------------------------------------------------------------- giving a block back

  function Push(s: KS, i: nat, a: nat, m': seq<nat>): KS
    requires Sizes(s) && i < NREFS && PageOf(s, i) <= a
  {
    s.(free := s.free[i := [a] + s.free[i]], m := m',
       rs := s.rs[i := s.rs[i].(nfree := s.rs[i].nfree + 1, off := a - PageOf(s, i))])
  }

  /** m' is m with block a overwritten and its first word linking it to next. */
  ghost predicate Filled(m: seq<nat>, m': seq<nat>, a: nat, z: nat, next: nat) {
    && |m'| == |m| && a % 4 == 0 && a / 4 < |m| && m'[a / 4] == next
    && (forall w: nat :: w < |m| && !(a <= 4 * w < a + z) ==> m'[w] == m[w])
  }

  lemma PushList(m: seq<nat>, m': seq<nat>, page: nat, t: nat, off: nat, n: nat, fl: seq<nat>, a: nat)
    requires FreeList(m, page, t, off, n, fl) && IsBlock(page, t, a) && a !in fl
    requires Filled(m, m', a, Size(t), if fl == [] then 0 else fl[0])
    ensures FreeList(m', page, t, a - page, n + 1, [a] + fl)
  {
    hide Size;
    var l := [a] + fl;
    forall j | 0 <= j < |l|
      ensures FreeLinked(m', l, j)
    {
      if j > 0 {
        assert FreeLinked(m, fl, j - 1) && fl[j - 1] in fl;
        BlocksApart(page, t, a, fl[j - 1]);
      }
    }
  }

  lemma PushCore(s: KS, i: nat, a: nat, m': seq<nat>)
    requires Core(s) && LiveIn(s, i, a) && i < NREFS && TypeOf(s, i) < NSIZES
    requires Filled(s.m, m', a, Size(TypeOf(s, i)), if s.free[i] == [] then 0 else s.free[i][0])
    ensures Core(Push(s, i, a, m'))
  {
    hide Chain, Filter, PageAddr, BlockType, Size, PerPage, FreeList;
    var s' := Push(s, i, a, m');
    assert PageOk(s, i);
    ListsFrame(s, s');
    BlockEnd(PageOf(s, i), TypeOf(s, i), a);
    forall j | j in s'.all
      ensures PageOk(s', j)
    {
      assert PageOk(s, j);
      if j == i {
        PushList(s.m, m', PageOf(s, i), TypeOf(s, i), s.rs[i].off, s.rs[i].nfree, s.free[i], a);
      } else {
        PagesApart(s, i, j);
        PageFrame(s, s', j);
      }
    }
    ApartFrame(s, s');
  }

  lemma PagesApart(s: KS, i: nat, j: nat)
    requires Apart(s) && i in s.all && j in s.all && i != j
    ensures RangesApart(PageOf(s, i), PAGE, PageOf(s, j), PAGE)
  {
  }

  /** Exactly the pushed block stops being live. */
  lemma PushLive(s: KS, i: nat, a: nat, m': seq<nat>, k: nat, b: nat)
    requires Sizes(s) && LiveIn(s, i, a)
    ensures LiveIn(Push(s, i, a, m'), k, b) <==> LiveIn(s, k, b) && !(k == i && b == a)
  {
    hide PageAddr, BlockType, Size;
  }

  // ---------------------------------------------------------------- dropping a free page

  function ToSet(fl: seq<nat>): set<nat> { set a | a in fl }

  lemma {:induction false} SetOfDistinct(fl: seq<nat>)
    requires Distinct(fl)
    ensures |ToSet(fl)| == |fl|
  {
    if fl != [] {
      SetOfDistinct(fl[1..]);
      assert ToSet(fl) == {fl[0]} + ToSet(fl[1..]);
      assert fl[0] !in fl[1..];
    }
  }

  /** Pigeonhole: as many distinct free blocks as the page has blocks are all of them. */
  lemma AllFree(page: nat, t: nat, fl: seq<nat>, a: nat)
    requires t < NSIZES && Distinct(fl) && |fl| == PerPage(t) && (forall b :: b in fl ==> IsBlock(page, t, b))
    requires IsBlock(page, t, a)
    ensures a in fl
  {
    hide Size, PerPage, IsBlock, Fresh, Distinct;
    var f := Fresh(page, Size(t), PerPage(t));
    FreshDistinct(page, Size(t), PerPage(t));
    FreshLen(page, Size(t), PerPage(t));
    SetOfDistinct(f);
    SetOfDistinct(fl);
    forall b | b in ToSet(fl) ensures b in ToSet(f) { FreshBlocks(page, t, b); }
    SubsetEqual(ToSet(fl), ToSet(f));
    FreshBlocks(page, t, a);
    assert a in ToSet(f);
  }

  lemma SubsetEqual(x: set<nat>, y: set<nat>)
    requires x <= y && |x| == |y|
    ensures x == y
  {
    assert |y - x| == |y| - |x|;
  }

  /** s' is s with pageref i taken off its two lists and its bit cleared. */
  ghost predicate Drops(s: KS, s': KS, i: nat) {
    && Sizes(s) && Sizes(s')
    && s' == s.(rs := s'.rs, sb := s'.sb, ab := s'.ab, used := s.used - {i}, all := Without(s.all, i))
    && (forall j :: 0 <= j < NREFS ==> s'.rs[j] == s.rs[j].(nextSame := s'.rs[j].nextSame, nextAll := s'.rs[j].nextAll))
    && Chain(s'.rs, All, s'.ab, s'.all)
    && (forall t :: 0 <= t < NSIZES ==> Chain(s'.rs, Same, s'.sb[t], Without(Filter(s.all, s.rs, t), i)))
  }

  lemma DropCore(s: KS, s': KS, i: nat)
    requires Core(s) && Drops(s, s', i)
    ensures Core(s') && (forall j :: j in s'.all <==> j in s.all && j != i)
  {
    hide Chain, Filter, PageAddr, BlockType, FreeList, Without;
    forall j ensures j in s'.all <==> j in s.all && j != i { WithoutMember(s.all, i, j); }
    WithoutMember(s.all, i, 0);
    forall t | 0 <= t < NSIZES
      ensures Chain(s'.rs, Same, s'.sb[t], Filter(s'.all, s'.rs, t))
    {
      FilterFrame(s'.all, s.rs, s'.rs, t);
      FilterWithout(s.all, s.rs, t, i);
    }
    forall j | j in s'.all
      ensures PageOk(s', j)
    {
      assert PageOk(s, j);
      PageFrame(s, s', j);
    }
    ApartFrame(s, s');
  }

  /** A page is dropped only when it has no live block. */
  lemma DropLive(s: KS, s': KS, i: nat, k: nat, a: nat)
    requires Core(s) && Drops(s, s', i) && i in s.all && TypeOf(s, i) < NSIZES && i < NREFS
    requires |s.free[i]| == PerPage(TypeOf(s, i))
    ensures LiveIn(s', k, a) <==> LiveIn(s, k, a)
  {
    hide Chain, Filter, PageAddr, BlockType, Size, PerPage, Without;
    DropCore(s, s', i);
    assert PageOk(s, i);
    if k == i && IsBlock(PageOf(s, i), TypeOf(s, i), a) {
      AllFree(PageOf(s, i), TypeOf(s, i), s.free[i], a);
    }
  }

  // ---------------------------------------------------------------- what callers see

  lemma LiveInApart(s: KS, i: nat, a: nat, j: nat, b: nat)
    requires Core(s) && LiveIn(s, i, a) && LiveIn(s, j, b) && (i != j || a != b)
    requires TypeOf(s, i) < NSIZES && TypeOf(s, j) < NSIZES
    ensures RangesApart(a, Size(TypeOf(s, i)), b, Size(TypeOf(s, j)))
  {
    hide Chain, Filter, PageAddr, BlockType, Size, FreeList;
    if i == j {
      BlocksApart(PageOf(s, i), TypeOf(s, i), a, b);
    } else {
      BlockEnd(PageOf(s, i), TypeOf(s, i), a);
      BlockEnd(PageOf(s, j), TypeOf(s, j), b);
      hide IsBlock;
      PagesApart(s, i, j);
    }
  }

  /** Live blocks are pairwise apart and apart from the multi-page allocations. */
  lemma LiveApart(s: KS, a: nat, y: nat, b: nat, z: nat)
    requires Core(s) && Live(s, a, y) && Live(s, b, z)
    ensures (a == b && y == z) || RangesApart(a, y, b, z)
    ensures forall c :: c in s.big ==> RangesApart(a, y, c, PAGE * s.big[c])
  {
    hide Chain, Filter, PageAddr, BlockType, Size, FreeList, IsBlock;
    var i :| LiveIn(s, i, a) && TypeOf(s, i) < NSIZES && Size(TypeOf(s, i)) == y;
    var j :| LiveIn(s, j, b) && TypeOf(s, j) < NSIZES && Size(TypeOf(s, j)) == z;
    if i != j || a != b {
      LiveInApart(s, i, a, j, b);
    }
    BlockEnd(PageOf(s, i), TypeOf(s, i), a);
    BlockBounds(PageOf(s, i), TypeOf(s, i), a);
    forall c | c in s.big
      ensures RangesApart(a, y, c, PAGE * s.big[c])
    {
      assert BigOk(s, c);
    }
  }

  lemma BlockBounds(page: nat, t: nat, a: nat)
    requires IsBlock(page, t, a)
    ensures t < NSIZES && page <= a < page + PAGE
  {
  }

  /** All words of the blocks and ranges allocated in both states are unchanged. */
  ghost predicate Kept(s: KS, s': KS) {
    && |s'.m| == |s.m|
    && (forall a: nat, z: nat, w: nat :: Live(s, a, z) && Live(s', a, z) && w < |s.m| && a <= 4 * w < a + z ==>
          s'.m[w] == s.m[w])
    && (forall b: nat, w: nat :: b in s.big && b in s'.big && w < |s.m| && b <= 4 * w < b + PAGE * s.big[b] ==>
          s'.m[w] == s.m[w])
  }

  lemma KeptRefl(s: KS, s': KS)
    requires s'.m == s.m
    ensures Kept(s, s')
  {
  }

  lemma NewPageKept(s: KS, s': KS, page: nat, t: nat)
    requires Core(s) && Unallocated(s, page, 1) && Threaded(s.m, s'.m, page, t)
    ensures Kept(s, s')
  {
    hide Chain, Filter, PageAddr, BlockType, Size, FreeList, Fresh, IsBlock;
    forall a: nat, z: nat, w: nat | Live(s, a, z) && Live(s', a, z) && w < |s.m| && a <= 4 * w < a + z
      ensures s'.m[w] == s.m[w]
    {
      var i :| LiveIn(s, i, a) && TypeOf(s, i) < NSIZES && Size(TypeOf(s, i)) == z;
      BlockEnd(PageOf(s, i), TypeOf(s, i), a);
      BlockBounds(PageOf(s, i), TypeOf(s, i), a);
    }
  }

  lemma PushKept(s: KS, s': KS, i: nat, a: nat, next: nat)
    requires Core(s) && LiveIn(s, i, a) && TypeOf(s, i) < NSIZES && Filled(s.m, s'.m, a, Size(TypeOf(s, i)), next)
    requires forall z :: !Live(s', a, z)
    ensures Kept(s, s')
  {
    hide Chain, Filter, PageAddr, BlockType, Size, FreeList, IsBlock, LiveIn, Core;
    assert Live(s, a, Size(TypeOf(s, i)));
    forall b: nat, z: nat, w: nat | Live(s, b, z) && Live(s', b, z) && w < |s.m| && b <= 4 * w < b + z
      ensures s'.m[w] == s.m[w]
    {
      LiveApart(s, a, Size(TypeOf(s, i)), b, z);
    }
    LiveApart(s, a, Size(TypeOf(s, i)), a, Size(TypeOf(s, i)));
  }

  /** Exactly the block r of size z became live, and it is apart from all that was allocated. */
  ghost predicate Gained(s: KS, s': KS, r: nat, z: nat) {
    && (forall a: nat, y: nat :: Live(s', a, y) <==> Live(s, a, y) || (a == r && y == z))
    && (forall a: nat, y: nat :: Live(s, a, y) ==> RangesApart(a, y, r, z))
    && (forall b :: b in s.big ==> RangesApart(r, z, b, PAGE * s.big[b]))
    && s'.big == s.big
  }

  lemma GainedIf(s: KS, s': KS, i: nat, r: nat)
    requires Core(s') && !LiveIn(s, i, r) && TypeOf(s', i) < NSIZES && s'.big == s.big
    requires forall k: nat, a: nat :: LiveIn(s', k, a) <==> LiveIn(s, k, a) || (k == i && a == r)
    requires forall k :: k in s.all ==> TypeOf(s', k) == TypeOf(s, k)
    ensures Gained(s, s', r, Size(TypeOf(s', i)))
  {
    hide Chain, Filter, PageAddr, BlockType, Size, FreeList, IsBlock, Core, TypeOf;
    var z := Size(TypeOf(s', i));
    assert LiveIn(s', i, r);
    assert Live(s', r, z);
    forall a: nat, y: nat
      ensures Live(s', a, y) <==> Live(s, a, y) || (a == r && y == z)
      ensures Live(s, a, y) ==> RangesApart(a, y, r, z)
    {
      if Live(s, a, y) {
        var k :| LiveIn(s, k, a) && TypeOf(s, k) < NSIZES && Size(TypeOf(s, k)) == y;
        assert LiveIn(s', k, a);
        LiveInApart(s', k, a, i, r);
      }
      if Live(s', a, y) && !(a == r && y == z) {
        var k :| LiveIn(s', k, a) && TypeOf(s', k) < NSIZES && Size(TypeOf(s', k)) == y;
        assert LiveIn(s, k, a);
      }
    }
    LiveApart(s', r, z, r, z);
  }

  /** Exactly the block r stopped being live. */
  ghost predicate Lost(s: KS, s': KS, r: nat) {
    (forall a: nat, y: nat :: Live(s', a, y) <==> Live(s, a, y) && a != r) && s'.big == s.big
  }

  lemma LostIf(s: KS, s': KS, i: nat, r: nat)
    requires Core(s) && LiveIn(s, i, r) && s'.big == s.big
    requires forall k: nat, a: nat :: LiveIn(s', k, a) <==> LiveIn(s, k, a) && !(k == i && a == r)
    requires forall k :: k in s'.all ==> TypeOf(s', k) == TypeOf(s, k)
    ensures Lost(s, s', r)
  {
    hide Chain, Filter, PageAddr, BlockType, Size, FreeList, TypeOf, IsBlock;
    forall a: nat, y: nat
      ensures Live(s', a, y) <==> Live(s, a, y) && a != r
    {
      if Live(s', a, y) {
        var k :| LiveIn(s', k, a) && TypeOf(s', k) < NSIZES && Size(TypeOf(s', k)) == y;
        assert LiveIn(s, k, a);
        if a == r {
          BlockBounds(PageOf(s, i), TypeOf(s, i), a);
          BlockBounds(PageOf(s, k), TypeOf(s, k), a);
          SamePageOnce(s, i, k, a);
        }
      }
      if Live(s, a, y) && a != r {
        var k :| LiveIn(s, k, a) && TypeOf(s, k) < NSIZES && Size(TypeOf(s, k)) == y;
        assert LiveIn(s', k, a);
      }
    }
  }

  /** An address lies on one listed page only. */
  lemma SamePageOnce(s: KS, i: nat, k: nat, a: nat)
    requires Core(s) && i in s.all && k in s.all
    requires PageOf(s, i) <= a < PageOf(s, i) + PAGE && PageOf(s, k) <= a < PageOf(s, k) + PAGE
    ensures i == k
  {
    if i != k {
      PagesApart(s, i, k);
    }
  }

  lemma CountOk(s: KS, i: nat)
    requires PageOk(s, i)
    ensures s.rs[i].nfree == |s.free[i]|
  {
  }

  /** NULL is met only at the end of a list of pagerefs. */
  lemma NthNil(list: seq<nat>, k: nat)
    requires k <= |list| && Nth(list, k) == NIL && (forall j :: 0 <= j < |list| ==> list[j] < NREFS)
    ensures k == |list|
  {
  }

  /** The address of block x of a page. */
  function At(page: nat, t: nat, x: nat): nat
    requires t < NSIZES
  {
    page + x * Size(t)
  }

  lemma AtBounds(page: nat, t: nat, x: nat)
    requires t < NSIZES && x < PerPage(t) && page % PAGE == 0
    ensures At(page, t, x) % 4 == 0 && page <= At(page, t, x) && At(page, t, x) + 4 <= page + PAGE
    ensures At(page, t, 0) == page
  {
    hide Size, PerPage;
    var a := page + x * Size(t);
    IndexBlock(page, t, x);
    BlockEnd(page, t, a);
    BlockAligned(page, t, a);
    BlockBounds(page, t, a);
  }

  lemma AtLess(page: nat, t: nat, x: nat, y: nat)
    requires t < NSIZES && x < y
    ensures At(page, t, x) < At(page, t, y)
  {
    assert (y - x) * Size(t) > 0;
  }

  /** Block x of a page being threaded points to the block below it. */
  predicate WordAt(m: seq<nat>, page: nat, t: nat, x: nat)
    requires t < NSIZES
  {
    At(page, t, x) / 4 < |m| && m[At(page, t, x) / 4] == if x == 0 then 0 else At(page, t, x - 1)
  }

  lemma ThreadStep(m: seq<nat>, page: nat, t: nat, i: nat)
    requires t < NSIZES && 0 < i < PerPage(t) && page % PAGE == 0 && page + PAGE <= 4 * |m|
    requires forall x :: 0 <= x < i ==> WordAt(m, page, t, x)
    ensures At(page, t, i) / 4 < |m|
    ensures var m' := m[At(page, t, i) / 4 := At(page, t, i - 1)]; forall x :: 0 <= x <= i ==> WordAt(m', page, t, x)
  {
    hide Size, PerPage, At;
    AtBounds(page, t, i);
    var m' := m[At(page, t, i) / 4 := At(page, t, i - 1)];
    forall x | 0 <= x < i
      ensures WordAt(m', page, t, x)
    {
      assert WordAt(m, page, t, x);
      AtBounds(page, t, x);
      AtLess(page, t, x, i);
    }
  }

  lemma FreshBlockAt(page: nat, t: nat, j: nat)
    requires t < NSIZES && j < PerPage(t)
    ensures |Fresh(page, Size(t), PerPage(t))| == PerPage(t)
    ensures Fresh(page, Size(t), PerPage(t))[j] == At(page, t, PerPage(t) - 1 - j)
  {
    hide Size, PerPage;
    FreshAt(page, Size(t), PerPage(t), j);
  }

  lemma ThreadLinked(m: seq<nat>, page: nat, t: nat, j: nat)
    requires t < NSIZES && page % PAGE == 0 && page + PAGE <= 4 * |m| && j < PerPage(t)
    requires forall x :: 0 <= x < PerPage(t) ==> WordAt(m, page, t, x)
    ensures j < |Fresh(page, Size(t), PerPage(t))| && FreeLinked(m, Fresh(page, Size(t), PerPage(t)), j)
  {
    hide Size, PerPage, Fresh, At;
    FreshBlockAt(page, t, j);
    AtBounds(page, t, PerPage(t) - 1 - j);
    assert WordAt(m, page, t, PerPage(t) - 1 - j);
    if j + 1 < PerPage(t) {
      FreshBlockAt(page, t, j + 1);
    }
  }

  lemma ThreadDone(m: seq<nat>, m': seq<nat>, page: nat, t: nat)
    requires t < NSIZES && page % PAGE == 0 && page + PAGE <= 4 * |m| && |m'| == |m|
    requires forall x :: 0 <= x < PerPage(t) ==> WordAt(m', page, t, x)
    requires forall w: nat :: w < |m| && !(page <= 4 * w < page + PAGE) ==> m'[w] == m[w]
    ensures Threaded(m, m', page, t)
  {
    hide Size, PerPage, Fresh, At, WordAt, FreeLinked;
    var f := Fresh(page, Size(t), PerPage(t));
    FreshLen(page, Size(t), PerPage(t));
    forall j | 0 <= j < |f| ensures FreeLinked(m', f, j) { ThreadLinked(m', page, t, j); }
  }

  /** Taking a block of a listed page. */
  lemma TookBlock(s: KS, i: nat)
    requires Inv(s) && i in s.all && i < NREFS && s.free[i] != []
    ensures Inv(Pop(s, i)) && TypeOf(s, i) < NSIZES
    ensures Gained(s, Pop(s, i), s.free[i][0], Size(TypeOf(s, i))) && Kept(s, Pop(s, i)) && s.free[i][0] > 0
  {
    hide Chain, Filter, PageAddr, BlockType, PerPage, Size, FreeList, Apart, Gained, IsBlock, Kept;
    var s', r := Pop(s, i), s.free[i][0];
    PopCore(s, i);
    assert PageOk(s, i);
    assert r >= PageOf(s, i) by { FreeHead(s, i); }
    forall k: nat, a: nat ensures LiveIn(s', k, a) <==> LiveIn(s, k, a) || (k == i && a == r) { PopLive(s, i, k, a); }
    PopLive(s, i, i, r);
    GainedIf(s, s', i, r);
    KeptRefl(s, s');
  }

  lemma FreeHead(s: KS, i: nat)
    requires PageOk(s, i) && s.free[i] != []
    ensures IsBlock(PageOf(s, i), TypeOf(s, i), s.free[i][0]) && s.free[i][0] >= PageOf(s, i)
  {
    assert s.free[i][0] in s.free[i];
  }

  /** Taking the first block of a new page. */
  lemma TookPage(s: KS, i: nat, page: nat, t: nat, m': seq<nat>)
    requires Inv(s) && i !in s.all && i < NREFS && t < NSIZES && Unallocated(s, page, 1) && Threaded(s.m, m', page, t)
    ensures var n := NewPage(s, i, page, t, m');
      && Core(n) && n.free[i] != [] && Inv(Pop(n, i))
      && Gained(s, Pop(n, i), n.free[i][0], Size(t)) && Kept(s, Pop(n, i)) && n.free[i][0] > 0
  {
    hide Chain, Filter, PageAddr, BlockType, PerPage, Size, FreeList, Apart, Gained, IsBlock, Kept, Threaded, Fresh;
    var n := NewPage(s, i, page, t, m');
    NewPageCore(s, i, page, t, m');
    FreshLen(page, Size(t), PerPage(t));
    Packed(page, t);
    var s', r := Pop(n, i), n.free[i][0];
    PopCore(n, i);
    assert PageOk(n, i);
    FreeHead(n, i);
    forall k: nat, a: nat
      ensures LiveIn(s', k, a) <==> LiveIn(s, k, a) || (k == i && a == r)
    {
      PopLive(n, i, k, a);
      NewPageLive(s, i, page, t, m', k, a);
    }
    GainedIf(s, s', i, r);
    NewPageKept(s, s', page, t);
  }

  lemma UnallocatedSame(s: KS, s': KS, page: nat, n: nat)
    requires Unallocated(s, page, n) && s'.all == s.all && s'.rs == s.rs && s'.big == s.big && s'.m == s.m
    ensures Unallocated(s', page, n)
  {
  }

  /** Every listed page of type t is full, so a new page is needed. */
  ghost predicate Exhausted(s: KS, t: nat) {
    forall i :: i in s.all && TypeOf(s, i) == t && i < |s.free| ==> s.free[i] == []
  }

  /** Every page of s' is a page of s, or the given one. */
  ghost predicate NewPages(s: KS, s': KS, page: nat) {
    forall i :: i in s'.all ==> (i in s.all && PageOf(s', i) == PageOf(s, i)) || (page != 0 && PageOf(s', i) == page)
  }

  lemma PagesSame(s: KS, s': KS, page: nat)
    requires s'.all == s.all && |s'.rs| == |s.rs| && forall i :: 0 <= i < |s.rs| ==> s'.rs[i].pab == s.rs[i].pab
    ensures NewPages(s, s', page)
  {
  }

  lemma PopPages(s: KS, i: nat, page: nat)
    requires Sizes(s) && i < NREFS && s.free[i] != []
    ensures NewPages(s, Pop(s, i), page)
  {
    PagesSame(s, Pop(s, i), page);
  }

  lemma PushPages(s: KS, i: nat, a: nat, m': seq<nat>)
    requires Sizes(s) && i < NREFS && PageOf(s, i) <= a
    ensures NewPages(s, Push(s, i, a, m'), 0)
  {
    PagesSame(s, Push(s, i, a, m'), 0);
  }

  lemma PageNonzero(s: KS, page: nat)
    requires Unallocated(s, page, 1)
    ensures page > 0 && page % PAGE == 0
  {
  }

  lemma PagesAdded(s: KS, i: nat, page: nat, t: nat, m': seq<nat>)
    requires Sizes(s) && i < NREFS && t < NSIZES && page % PAGE == 0 && page > 0 && i !in s.all
    ensures var n := NewPage(s, i, page, t, m'); n.free[i] != [] ==> NewPages(s, Pop(n, i), page)
  {
    hide PageAddr, Fresh, PerPage, Size;
    Packed(page, t);
  }

  lemma PagesDropped(s: KS, p: KS, s': KS, i: nat)
    requires NewPages(s, p, 0) && Drops(p, s', i) && Distinct(p.all)
    ensures NewPages(s, s', 0)
  {
    hide PageAddr, Without, Chain, Filter;
    forall j ensures j in s'.all ==> j in p.all { WithoutMember(p.all, i, j); }
    assert forall j :: j in p.all && j < NREFS ==> PageOf(s', j) == PageOf(p, j);
    assert forall j :: j >= NREFS ==> PageOf(s', j) == PageOf(p, j) == 0;
  }

  /** Every pageref is in use. */
  ghost predicate NoPageref(s: KS) { forall i :: 0 <= i < NREFS ==> i in s.all }

  /** t is the smallest size class that holds sz. */
  predicate Fits(sz: nat, t: nat) { t < NSIZES && sz <= Size(t) && (t > 0 ==> Size(t - 1) < sz) }

  /** Giving back a block whose page keeps another live block. */
  lemma GaveBlock(s: KS, i: nat, a: nat, m': seq<nat>)
    requires Inv(s) && LiveIn(s, i, a) && i < NREFS && TypeOf(s, i) < NSIZES && PageOf(s, i) <= a
    requires Filled(s.m, m', a, Size(TypeOf(s, i)), if s.free[i] == [] then 0 else s.free[i][0])
    ensures var p := Push(s, i, a, m'); Core(p) && Lost(s, p, a) && Kept(s, p)
    ensures |s.free[i]| + 1 < PerPage(TypeOf(s, i)) ==> Inv(Push(s, i, a, m'))
  {
    hide Chain, Filter, PageAddr, BlockType, PerPage, Size, FreeList, Apart, IsBlock, Kept, Lost, Filled;
    var p := Push(s, i, a, m');
    PushCore(s, i, a, m');
    forall k: nat, b: nat
      ensures LiveIn(p, k, b) <==> LiveIn(s, k, b) && !(k == i && b == a)
    {
      PushLive(s, i, a, m', k, b);
    }
    LostIf(s, p, i, a);
    LostNone(s, p, a);
    PushKept(s, p, i, a, if s.free[i] == [] then 0 else s.free[i][0]);
  }

  lemma LostNone(s: KS, s': KS, r: nat)
    requires Lost(s, s', r)
    ensures forall z: nat :: !Live(s', r, z)
  {
  }

  /** Giving back the last live block of a page and dropping the page. */
  lemma GavePage(s: KS, p: KS, s': KS, i: nat, a: nat)
    requires Inv(s) && Core(p) && Lost(s, p, a) && Kept(s, p) && Drops(p, s', i) && i in p.all && i < NREFS
    requires TypeOf(p, i) < NSIZES && |p.free[i]| == PerPage(TypeOf(p, i))
    requires forall j :: j in p.all && j != i && j < |p.free| && TypeOf(p, j) < NSIZES ==>
              |p.free[j]| < PerPage(TypeOf(p, j))
    ensures Inv(s') && Lost(s, s', a) && Kept(s, s')
  {
    hide Chain, Filter, PageAddr, BlockType, PerPage, Size, FreeList, Apart, IsBlock, Without, LiveIn;
    DropCore(p, s', i);
    assert NotWhole(s');
    forall b: nat, y: nat
      ensures Live(s', b, y) <==> Live(p, b, y)
    {
      if Live(p, b, y) {
        var k :| LiveIn(p, k, b) && TypeOf(p, k) < NSIZES && Size(TypeOf(p, k)) == y;
        DropLive(p, s', i, k, b);
        assert LiveIn(s', k, b);
      }
      if Live(s', b, y) {
        var k :| LiveIn(s', k, b) && TypeOf(s', k) < NSIZES && Size(TypeOf(s', k)) == y;
        DropLive(p, s', i, k, b);
        assert LiveIn(p, k, b);
      }
    }
  }

  lemma MoreLeft(list: seq<nat>, k: nat, p: nat)
    requires k < |list| && p in list && p !in list[..k] && list[k] != p
    ensures k + 1 < |list|
  {
    assert list == list[..k] + [list[k]] + list[k + 1..];
  }

  lemma SetLinkSelf(r: Ref, w: Which, v: nat)
    ensures SetLink(r, w, Link(r, w)) == r && Link(SetLink(r, w, v), w) == v
  {
  }

  /** remove_lists: taking i off the list of its size and off the list of all pages. */
  lemma DropsIf(s: KS, rs1: seq<Ref>, s': KS, i: nat)
    requires Core(s) && Sizes(s') && i in s.all && TypeOf(s, i) < NSIZES && |rs1| == NREFS
    requires s' == s.(rs := s'.rs, sb := s.sb[TypeOf(s, i) := s'.sb[TypeOf(s, i)]], ab := s'.ab,
                      used := s.used - {i}, all := Without(s.all, i))
    requires Chain(rs1, Same, s'.sb[TypeOf(s, i)], Without(Filter(s.all, s.rs, TypeOf(s, i)), i))
    requires forall j :: 0 <= j < NREFS ==> rs1[j] == s.rs[j].(nextSame := rs1[j].nextSame)
    requires forall j :: 0 <= j < NREFS && j !in Filter(s.all, s.rs, TypeOf(s, i)) ==> rs1[j] == s.rs[j]
    requires Chain(s'.rs, All, s'.ab, Without(s.all, i))
    requires forall j :: 0 <= j < NREFS ==> s'.rs[j] == rs1[j].(nextAll := s'.rs[j].nextAll)
    ensures Drops(s, s', i)
  {
    hide Chain, Filter, Without, BlockType, PageAddr, PageOk, Apart;
    var t := TypeOf(s, i);
    forall u | 0 <= u < NSIZES
      ensures Chain(s'.rs, Same, s'.sb[u], Without(Filter(s.all, s.rs, u), i))
    {
      var l := Filter(s.all, s.rs, u);
      if u == t {
        ChainFrame(rs1, s'.rs, Same, s'.sb[u], Without(l, i));
      } else {
        FilterMember(s.all, s.rs, u, i);
        WithoutNone(l, i);
        forall j: nat | j in l && j < NREFS
          ensures rs1[j] == s.rs[j]
        {
          FilterMember(s.all, s.rs, u, j);
          FilterMember(s.all, s.rs, t, j);
        }
        ChainFrame(s.rs, s'.rs, Same, s.sb[u], l);
      }
    }
  }

  lemma LiveOnPage(s: KS, a: nat, z: nat)
    ensures Live(s, a, z) ==> exists i :: i in s.all && PageOf(s, i) <= a < PageOf(s, i) + PAGE
  {
  }

  /** A live block on pageref i's page is one of that page's blocks. */
  lemma LiveHere(s: KS, a: nat, z: nat, i: nat)
    requires Core(s) && Live(s, a, z) && i in s.all && PageOf(s, i) <= a < PageOf(s, i) + PAGE
    ensures LiveIn(s, i, a) && TypeOf(s, i) < NSIZES && Size(TypeOf(s, i)) == z
  {
    hide Chain, Filter, PageAddr, BlockType, Size, FreeList;
    var k :| LiveIn(s, k, a) && TypeOf(s, k) < NSIZES && Size(TypeOf(s, k)) == z;
    SamePageOnce(s, i, k, a);
  }

  lemma PageAligned(pab: nat)
    ensures PageAddr(pab) % PAGE == 0 && PageAddr(pab) % 4 == 0
  {
  }

  /** What the head of page i's free list looks like in its pageref. */
  lemma HeadOk(s: KS, i: nat)
    requires PageOk(s, i)
    ensures s.rs[i].off == INVALID <==> s.free[i] == []
    ensures s.free[i] != [] ==> PageOf(s, i) + s.rs[i].off == s.free[i][0]
  {
    if s.free[i] != [] {
      FreeHead(s, i);
    }
  }

  lemma PushCount(s: KS, i: nat, a: nat, m': seq<nat>)
    requires Inv(s) && LiveIn(s, i, a) && i < NREFS && TypeOf(s, i) < NSIZES && PageOf(s, i) <= a
    ensures var p := Push(s, i, a, m');
      && p.all == s.all && TypeOf(p, i) == TypeOf(s, i)
      && p.rs[i].nfree == |p.free[i]| == |s.free[i]| + 1 <= PerPage(TypeOf(s, i))
      && p.rs[i].pab == s.rs[i].pab
      && forall j :: j in p.all && j != i && j < |p.free| && TypeOf(p, j) < NSIZES ==>
            |p.free[j]| < PerPage(TypeOf(p, j))
  {
    hide Chain, Filter, PageAddr, BlockType, PerPage, Size, FreeList, Apart, IsBlock;
    assert PageOk(s, i);
    CountOk(s, i);
  }

  lemma BigInv(s: KS, page: nat, n: nat)
    requires Inv(s) && Unallocated(s, page, n)
    ensures Inv(s.(big := s.big[page := n]))
  {
    hide Chain, Filter, PageAddr, BlockType, PerPage, Size, FreeList, IsBlock;
    var s' := s.(big := s.big[page := n]);
    forall b | b in s'.big
      ensures BigOk(s', b)
    {
      if b in s.big {
        assert BigOk(s, b);
      }
    }
    forall i | i in s'.all
      ensures PageOk(s', i)
    {
      assert PageOk(s, i);
    }
  }

  lemma BigGone(s: KS, ptr: nat)
    requires Inv(s)
    ensures Inv(s.(big := s.big - {ptr}))
  {
    hide Chain, Filter, PageAddr, BlockType, PerPage, Size, FreeList, IsBlock;
    var s' := s.(big := s.big - {ptr});
    forall b | b in s'.big
      ensures BigOk(s', b)
    {
      assert BigOk(s, b);
    }
    forall i | i in s'.all
      ensures PageOk(s', i)
    {
      assert PageOk(s, i);
    }
  }

  lemma BigAligned(s: KS, b: nat)
    requires Apart(s) && b in s.big
    ensures b % PAGE == 0 && b > 0
  {
    assert BigOk(s, b);
  }

  /** NULL is never live; a multi-page allocation is on no page of the subpage allocator. */
  lemma NoNull(s: KS, a: nat, z: nat)
    requires Core(s)
    ensures Live(s, a, z) ==> a > 0 && a !in s.big
    ensures a in s.big ==> a > 0 && forall i :: i in s.all ==> !(PageOf(s, i) <= a < PageOf(s, i) + PAGE)
  {
    hide Chain, Filter, PageAddr, BlockType, PerPage, FreeList, IsBlock;
    if Live(s, a, z) {
      var i :| LiveIn(s, i, a) && TypeOf(s, i) < NSIZES && Size(TypeOf(s, i)) == z;
      BlockBounds(PageOf(s, i), TypeOf(s, i), a);
      assert PageOk(s, i);
    }
    if a in s.big {
      assert BigOk(s, a);
    }
  }

  // ---------------------------------------------------------------- multi-page requests

  /** The number of pages kmalloc asks for, in 32-bit arithmetic. */
  /** The size classes are the powers of two from 16 to 2048. */
  lemma SizePower(sz: nat, t: nat)
    requires Fits(sz, t)
    ensures Size(t) in {16, 32, 64, 128, 256, 512, 1024, 2048} && (Size(t) == 16 || Size(t) < 2 * sz)
  {
  }

  function PageCount(sz: nat): nat { (sz + PAGE - 1) % 0x1_0000_0000 / PAGE }

  /** It covers the request exactly when rounding up does not wrap, and then without a spare page. */
  lemma PagesCover(sz: nat)
    requires 0 < sz < 0x1_0000_0000
    ensures sz <= PAGE * PageCount(sz) <==> sz + PAGE - 1 < 0x1_0000_0000
    ensures sz + PAGE - 1 < 0x1_0000_0000 ==>
              PageCount(sz) == (sz + PAGE - 1) / PAGE && PAGE * PageCount(sz) < sz + PAGE
  {
    assert sz + PAGE - 1 >= 0x1_0000_0000 ==> (sz + PAGE - 1) % 0x1_0000_0000 < PAGE;
  }

  /** A request for which it wraps: kmalloc asks for no page at all. */
  lemma PagesWrap()
    ensures PageCount(0xffff_f001) == 0
  {
  }

  // ---------------------------------------------------------------- the owners' stores

  /** Word w of memory set to v. */
  function Poked(s: KS, w: nat, v: nat): KS
    requires w < |s.m|
  {
    s.(m := s.m[w := v])
  }

  /** Every word of every live block and page range but the one at x is as it was. */
  ghost predicate KeptBut(s: KS, s': KS, x: nat) {
    && |s'.m| == |s.m|
    && (forall a: nat, z: nat, w: nat :: Live(s, a, z) && a != x && w < |s.m| && a <= 4 * w < a + z ==>
          s'.m[w] == s.m[w])
    && (forall b: nat, w: nat :: b in s.big && b != x && w < |s.m| && b <= 4 * w < b + PAGE * s.big[b] ==>
          s'.m[w] == s.m[w])
  }

  lemma SameLive(s: KS, w: nat, v: nat, i: nat, a: nat)
    requires w < |s.m|
    ensures LiveIn(Poked(s, w, v), i, a) <==> LiveIn(s, i, a)
    ensures TypeOf(Poked(s, w, v), i) == TypeOf(s, i)
  {
  }

  /** A store outside every free list keeps the invariant: the pages' free lists are all that it
      says about memory. */
  lemma PokeInv(s: KS, w: nat, v: nat)
    requires Inv(s) && w < |s.m|
    requires forall i :: i in s.all ==> PageOk(Poked(s, w, v), i)
    ensures Inv(Poked(s, w, v))
  {
    hide Chain, Filter, PageAddr, BlockType, Size, PerPage, FreeList;
    ListsFrame(s, Poked(s, w, v));
    ApartFrame(s, Poked(s, w, v));
  }

  /** A block that is live is on no free list, so its words are its owner's. */
  lemma PokeList(m: seq<nat>, page: nat, t: nat, off: nat, n: nat, fl: seq<nat>, a: nat, w: nat, v: nat)
    requires FreeList(m, page, t, off, n, fl) && IsBlock(page, t, a) && a !in fl
    requires w < |m| && a <= 4 * w < a + Size(t)
    ensures FreeList(m[w := v], page, t, off, n, fl)
  {
    hide Size;
    var m' := m[w := v];
    forall j | 0 <= j < |fl|
      ensures FreeLinked(m', fl, j)
    {
      assert FreeLinked(m, fl, j) && fl[j] in fl;
      BlocksApart(page, t, a, fl[j]);
    }
  }

  lemma PokeLive(s: KS, i: nat, a: nat, w: nat, v: nat)
    requires Inv(s) && LiveIn(s, i, a) && TypeOf(s, i) < NSIZES && a <= 4 * w < a + Size(TypeOf(s, i))
    ensures w < |s.m| && Inv(Poked(s, w, v))
  {
    hide Chain, Filter, PageAddr, BlockType, Size, PerPage, FreeList, IsBlock;
    assert PageOk(s, i);
    BlockEnd(PageOf(s, i), TypeOf(s, i), a);
    BlockBounds(PageOf(s, i), TypeOf(s, i), a);
    var s' := Poked(s, w, v);
    forall j | j in s.all
      ensures PageOk(s', j)
    {
      assert PageOk(s, j);
      if j == i {
        PokeList(s.m, PageOf(s, i), TypeOf(s, i), s.rs[i].off, s.rs[i].nfree, s.free[i], a, w, v);
      } else {
        PagesApart(s, i, j);
        PageFrame(s, s', j);
      }
    }
    PokeInv(s, w, v);
  }

  lemma PokeBig(s: KS, b: nat, w: nat, v: nat)
    requires Inv(s) && b in s.big && b <= 4 * w < b + PAGE * s.big[b]
    ensures w < |s.m| && Inv(Poked(s, w, v))
  {
    hide Chain, Filter, PageAddr, BlockType, Size, PerPage, FreeList, IsBlock;
    assert BigOk(s, b);
    var s' := Poked(s, w, v);
    forall j | j in s.all
      ensures PageOk(s', j)
    {
      assert PageOk(s, j);
      PageFrame(s, s', j);
    }
    PokeInv(s, w, v);
  }

  /** What a store into the block or range at x leaves alone. */
  lemma PokeKept(s: KS, x: nat, z: nat, w: nat, v: nat)
    requires Core(s) && w < |s.m| && x <= 4 * w < x + z && (Live(s, x, z) || (x in s.big && z == PAGE * s.big[x]))
    ensures KeptBut(s, Poked(s, w, v), x)
  {
    hide Lists, Pages, Live;
    forall a: nat, y: nat | Live(s, a, y) && a != x
      ensures RangesApart(a, y, 4 * w, 1)
    {
      LiveApart(s, a, y, a, y);
      if Live(s, x, z) {
        LiveApart(s, a, y, x, z);
      }
    }
    forall b: nat | b in s.big && b != x
      ensures RangesApart(b, PAGE * s.big[b], 4 * w, 1)
    {
      assert BigOk(s, b);
      if Live(s, x, z) {
        LiveApart(s, x, z, x, z);
      }
    }
  }
}
