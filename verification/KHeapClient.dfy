/** Whole runs of the kernel heap: a client that allocates, stores and frees in any order finds in
    every block it holds what it last stored there. */
module KHeapClient {
  import opened KHeapModel
  import opened KHeap

  /** An allocation the client asked for: its result, the size, and whether it is still held. */
  datatype Grant = Grant(ptr: nat, sz: nat, live: bool)

  /** All allocations so far, and the words the client expects in memory. */
  datatype Client = Client(grants: seq<Grant>, want: map<nat, nat>)

  /** Store puts v in word k of allocation h. */
  datatype Op = Alloc(sz: nat) | Free(h: nat) | Store(h: nat, k: nat, v: nat)

  predicate Held(c: Client, h: int) { 0 <= h < |c.grants| && c.grants[h].live }

  /** A store stays within an allocation that is held. */
  predicate Within(c: Client, h: nat, k: nat) { Held(c, h) && 4 * k + 4 <= c.grants[h].sz }

  predicate InGrant(g: Grant, w: int) { g.ptr <= 4 * w < g.ptr + g.sz }

  function Outside(want: map<nat, nat>, g: Grant): map<nat, nat> {
    map w | w in want && !InGrant(g, w) :: want[w]
  }

  /** What the client knows after an operation that returned r. It frees and stores only where it
      may. */
  function Act(c: Client, op: Op, r: nat): Client {
    match op
    case Alloc(sz) => c.(grants := c.grants + [Grant(r, sz, r != 0)])
    case Free(h) =>
      if Held(c, h) then Client(c.grants[h := c.grants[h].(live := false)], Outside(c.want, c.grants[h])) else c
    case Store(h, k, v) =>
      if Within(c, h, k) then c.(want := c.want[c.grants[h].ptr / 4 + k := v]) else c
  }

  function Acts(ops: seq<Op>, rs: seq<nat>): Client
    requires |rs| == |ops|
  {
    if ops == [] then Client([], map[])
    else Act(Acts(ops[..|ops| - 1], rs[..|ops| - 1]), ops[|ops| - 1], rs[|ops| - 1])
  }

  /** The heap agrees that g is allocated. */
  ghost predicate GrantOk(s: KS, g: Grant) {
    && g.ptr > 0 && g.ptr % 4 == 0
    && if g.sz < 2048 then exists z :: g.sz <= z && Live(s, g.ptr, z) else g.ptr in s.big && g.sz <= PAGE * s.big[g.ptr]
  }

  ghost predicate Granted(s: KS, c: Client) {
    && (forall h :: Held(c, h) ==> GrantOk(s, c.grants[h]))
    && (forall h, k :: Held(c, h) && Held(c, k) && h != k ==> c.grants[h].ptr != c.grants[k].ptr)
  }

  /** Every expected word is in memory, within an allocation that is held. */
  ghost predicate Wanted(s: KS, c: Client) {
    forall w :: w in c.want ==> w < |s.m| && s.m[w] == c.want[w] && exists h :: Held(c, h) && InGrant(c.grants[h], w)
  }

  /** All that is allocated lies below brk. */
  ghost predicate Below(s: KS, brk: nat) {
    && brk % PAGE == 0 && brk > 0
    && (forall i :: i in s.all ==> PageOf(s, i) + PAGE <= brk)
    && (forall b :: b in s.big ==> b + PAGE * s.big[b] <= brk)
  }

  ghost predicate Agrees(s: KS, c: Client, brk: nat) { Granted(s, c) && Wanted(s, c) && Below(s, brk) }

  lemma BelowUnallocated(s: KS, brk: nat, n: nat)
    requires Below(s, brk) && n >= 1 && brk + PAGE * n <= 4 * |s.m|
    ensures Unallocated(s, brk, n)
  {
    hide PageOf;
  }

  lemma BelowAfter(s: KS, s': KS, brk: nat, page: nat)
    requires Below(s, brk) && NewPages(s, s', page) && s'.big == s.big && (page != 0 ==> page + PAGE <= brk)
    ensures Below(s', brk)
  {
    hide PageOf;
  }

  lemma LiveAligned(s: KS, a: nat, z: nat)
    requires Core(s) && Live(s, a, z)
    ensures a > 0 && a % 4 == 0 && z > 0
  {
    hide Chain, Filter, FreeList, PageAddr, BlockType, Size, Apart, IsBlock;
    var i: nat :| LiveIn(s, i, a) && TypeOf(s, i) < NSIZES && Size(TypeOf(s, i)) == z;
    assert PageOk(s, i);
    PageAligned(s.rs[i].pab);
    BlockAligned(PageOf(s, i), TypeOf(s, i), a);
    NoNull(s, a, z);
  }

  /** A step that keeps the words of what stays allocated keeps what a client expects there. */
  lemma KeepsWanted(s: KS, s': KS, c: Client)
    requires Granted(s, c) && Wanted(s, c) && Kept(s, s')
    requires forall h :: Held(c, h) ==> StaysFor(s, s', c.grants[h])
    ensures Granted(s', c) && Wanted(s', c)
  {
    hide Live;
    forall h | Held(c, h)
      ensures GrantOk(s', c.grants[h])
    {
      assert GrantOk(s, c.grants[h]) && StaysFor(s, s', c.grants[h]);
    }
    forall w | w in c.want
      ensures w < |s'.m| && s'.m[w] == c.want[w]
    {
      var h :| Held(c, h) && InGrant(c.grants[h], w);
      var g := c.grants[h];
      assert GrantOk(s, g) && StaysFor(s, s', g);
      if g.sz < 2048 {
        var z :| g.sz <= z && Live(s, g.ptr, z);
        assert Live(s', g.ptr, z);
      }
    }
  }

  /** s' still has the allocation of g. */
  ghost predicate StaysFor(s: KS, s': KS, g: Grant) {
    if g.sz < 2048 then forall z :: Live(s, g.ptr, z) ==> Live(s', g.ptr, z)
    else g.ptr in s.big ==> g.ptr in s'.big && s'.big[g.ptr] == s.big[g.ptr]
  }

  /** A client that frees one of its allocations still has the others. */
  lemma Dropped(s: KS, c: Client, h: nat)
    requires Granted(s, c) && Wanted(s, c) && Held(c, h)
    ensures Granted(s, Act(c, Free(h), 0)) && Wanted(s, Act(c, Free(h), 0))
    ensures forall k :: Held(Act(c, Free(h), 0), k) ==>
              c.grants[k].ptr != c.grants[h].ptr && Act(c, Free(h), 0).grants[k] == c.grants[k]
  {
    hide GrantOk;
    var c' := Act(c, Free(h), 0);
    assert forall k :: Held(c', k) ==> Held(c, k) && k != h && c'.grants[k] == c.grants[k];
    forall w | w in c'.want
      ensures exists k :: Held(c', k) && InGrant(c'.grants[k], w)
    {
      var k :| Held(c, k) && InGrant(c.grants[k], w);
      assert k != h && Held(c', k) && InGrant(c'.grants[k], w);
    }
  }

  /** A new allocation beside those that are held. */
  lemma Added(s: KS, c: Client, g: Grant)
    requires Granted(s, c) && Wanted(s, c) && (g.live ==> GrantOk(s, g))
    requires g.live ==> forall h :: Held(c, h) ==> c.grants[h].ptr != g.ptr
    ensures var c' := c.(grants := c.grants + [g]); Granted(s, c') && Wanted(s, c')
  {
    hide GrantOk;
    var c' := c.(grants := c.grants + [g]);
    assert forall h :: 0 <= h < |c.grants| ==> c'.grants[h] == c.grants[h];
    forall w | w in c'.want
      ensures exists h :: Held(c', h) && InGrant(c'.grants[h], w)
    {
      var h :| Held(c, h) && InGrant(c.grants[h], w);
      assert Held(c', h) && InGrant(c'.grants[h], w);
    }
  }

  lemma SmallAlloc(s: KS, s': KS, c: Client, r: nat, sz: nat, z: nat)
    requires Core(s) && Core(s') && Granted(s, c) && Wanted(s, c) && sz < 2048 && sz <= z
    requires Gained(s, s', r, z) && Kept(s, s')
    ensures Granted(s', Act(c, Alloc(sz), r)) && Wanted(s', Act(c, Alloc(sz), r)) && r != 0 && s'.big == s.big
  {
    hide Live, Kept, Lists, Pages, Apart;
    assert Live(s', r, z);
    LiveAligned(s', r, z);
    KeepsWanted(s, s', c);
    forall h | Held(c, h)
      ensures c.grants[h].ptr != r
    {
      var g := c.grants[h];
      assert GrantOk(s, g);
      if g.sz < 2048 {
        var y :| g.sz <= y && Live(s, g.ptr, y);
        LiveAligned(s, g.ptr, y);
      } else {
        NoNull(s', r, z);
      }
    }
    Added(s', c, Grant(r, sz, true));
  }

  lemma BigAlloc(s: KS, c: Client, r: nat, sz: nat, n: nat)
    requires Core(s) && Granted(s, c) && Wanted(s, c) && sz >= 2048 && sz <= PAGE * n && Unallocated(s, r, n)
    ensures var s' := s.(big := s.big[r := n]);
            Granted(s', Act(c, Alloc(sz), r)) && Wanted(s', Act(c, Alloc(sz), r)) && r != 0
  {
    hide Lists, Pages, PageOf, TypeOf;
    var s' := s.(big := s.big[r := n]);
    forall h | Held(c, h)
      ensures c.grants[h].ptr != r && StaysFor(s, s', c.grants[h])
    {
      var g := c.grants[h];
      assert GrantOk(s, g);
      SameLiveBig(s, r, n, g.ptr);
      if g.sz < 2048 {
        var y :| g.sz <= y && Live(s, g.ptr, y);
        LiveNotFree(s, g.ptr, y, r, n);
      } else {
        BigNotFree(s, g.ptr, r, n);
      }
    }
    KeptRefl(s, s');
    KeepsWanted(s, s', c);
    Added(s', c, Grant(r, sz, true));
  }

  lemma SameLiveBig(s: KS, r: nat, n: nat, a: nat)
    ensures forall z :: Live(s, a, z) ==> Live(s.(big := s.big[r := n]), a, z)
  {
    var s' := s.(big := s.big[r := n]);
    forall z | Live(s, a, z)
      ensures Live(s', a, z)
    {
      var i :| LiveIn(s, i, a) && TypeOf(s, i) < NSIZES && Size(TypeOf(s, i)) == z;
      assert LiveIn(s', i, a) && TypeOf(s', i) < NSIZES;
    }
  }

  lemma LiveNotFree(s: KS, a: nat, y: nat, r: nat, n: nat)
    requires Live(s, a, y) && Unallocated(s, r, n)
    ensures a != r
  {
    hide PageOf, Size, PageAddr, BlockType;
    var i :| LiveIn(s, i, a) && TypeOf(s, i) < NSIZES && Size(TypeOf(s, i)) == y;
    assert RangesApart(PageOf(s, i), PAGE, r, PAGE * n);
  }

  lemma BigNotFree(s: KS, b: nat, r: nat, n: nat)
    requires Apart(s) && b in s.big && Unallocated(s, r, n)
    ensures b != r
  {
    assert BigOk(s, b);
  }

  /** Two allocations that are held do not overlap. */
  lemma GrantsApart(s: KS, c: Client, h: nat, k: nat)
    requires Core(s) && Granted(s, c) && Held(c, h) && Held(c, k) && h != k
    ensures RangesApart(c.grants[h].ptr, c.grants[h].sz, c.grants[k].ptr, c.grants[k].sz)
  {
    hide Live, Lists, Pages;
    var g, g' := c.grants[h], c.grants[k];
    assert GrantOk(s, g) && GrantOk(s, g');
    if g.sz < 2048 {
      var z :| g.sz <= z && Live(s, g.ptr, z);
      LiveApart(s, g.ptr, z, g.ptr, z);
      if g'.sz < 2048 {
        var z' :| g'.sz <= z' && Live(s, g'.ptr, z');
        LiveApart(s, g.ptr, z, g'.ptr, z');
      }
    } else if g'.sz < 2048 {
      var z' :| g'.sz <= z' && Live(s, g'.ptr, z');
      LiveApart(s, g'.ptr, z', g'.ptr, z');
    } else {
      assert BigOk(s, g.ptr);
    }
  }

  /** alloc_kpages over a range of memory that is handed out from below and never taken back. */
  method KPages(h: KHeap, brk: nat, n: nat) returns (page: nat, brk': nat)
    requires h.Valid() && Below(h.View(), brk) && n >= 1
    ensures page == 0 || (page == brk && Unallocated(h.View(), page, n))
    ensures page == 0 <==> brk == 0 || brk + 4096 * n > 4 * h.mem.Length
    ensures brk' == (if page == 0 then brk else brk + PAGE * n) && Below(h.View(), brk')
  {
    hide Inv, Unallocated, PageOf;
    if brk + PAGE * n <= 4 * h.mem.Length {
      BelowUnallocated(h.View(), brk, n);
      return brk, brk + PAGE * n;
    }
    return 0, brk;
  }

  method DoAlloc(h: KHeap, sz: nat, brk: nat, ghost c: Client) returns (r: nat, brk': nat)
    requires h.Valid() && Agrees(h.View(), c, brk) && sz + PAGE - 1 < 0x1_0000_0000
    modifies h, h.refs, h.inuse, h.sizebases, h.mem
    ensures h.Valid() && Agrees(h.View(), Act(c, Alloc(sz), r), brk')
  {
    hide Core, Granted, Wanted, Kept, Gained, Unallocated, NewPages, Fits, Exhausted, NoPageref, Below;
    var n := if sz >= 2048 then (sz + PAGE - 1) / PAGE else 1;
    var page;
    page, brk' := KPages(h, brk, n);
    ghost var s := h.View();
    ghost var z;
    r, z := h.Kmalloc(sz, page);
    ghost var s' := h.View();
    if r == 0 {
      Added(s, c, Grant(0, sz, false));
    } else if sz < 2048 {
      SmallAlloc(s, s', c, r, sz, z);
      BelowAfter(s, s', brk', page);
    } else {
      BigAlloc(s, c, r, sz, n);
      BelowBig(s, r, n, brk');
    }
  }

  lemma BelowBig(s: KS, r: nat, n: nat, brk: nat)
    requires Below(s, brk) && r + PAGE * n <= brk
    ensures Below(s.(big := s.big[r := n]), brk)
  {
  }

  method DoFree(h: KHeap, g: Grant, ghost k: nat, brk: nat, ghost c: Client)
    requires h.Valid() && Agrees(h.View(), c, brk) && Held(c, k) && c.grants[k] == g
    modifies h, h.refs, h.inuse, h.sizebases, h.mem
    ensures h.Valid() && Agrees(h.View(), Act(c, Free(k), 0), brk)
  {
    hide Core, Kept, NewPages, Below, Live;
    ghost var s := h.View();
    assert GrantOk(s, g);
    ghost var z := 0;
    if g.sz < 2048 {
      z :| g.sz <= z && Live(s, g.ptr, z);
      NoNullAt(s, g.ptr, z);
    }
    Dropped(s, c, k);
    h.Kfree(g.ptr, z);
    ghost var s' := h.View();
    ghost var c' := Act(c, Free(k), 0);
    forall j | Held(c', j)
      ensures StaysFor(s, s', c'.grants[j])
    {
      assert GrantOk(s, c'.grants[j]);
      if g.sz >= 2048 {
        SameLiveGone(s, g.ptr, c'.grants[j].ptr);
      }
    }
    KeepsWanted(s, s', c');
    BelowFreed(s, s', brk, g.ptr);
  }

  lemma NoNullAt(s: KS, a: nat, z: nat)
    requires Inv(s) && Live(s, a, z)
    ensures a !in s.big
  {
    NoNull(s, a, z);
  }

  lemma SameLiveGone(s: KS, r: nat, a: nat)
    ensures forall z :: Live(s, a, z) ==> Live(s.(big := s.big - {r}), a, z)
  {
    var s' := s.(big := s.big - {r});
    forall z | Live(s, a, z)
      ensures Live(s', a, z)
    {
      var i :| LiveIn(s, i, a) && TypeOf(s, i) < NSIZES && Size(TypeOf(s, i)) == z;
      assert LiveIn(s', i, a) && TypeOf(s', i) < NSIZES;
    }
  }

  lemma BelowFreed(s: KS, s': KS, brk: nat, ptr: nat)
    requires Below(s, brk) && NewPages(s, s', 0) && (s'.big == s.big || s'.big == s.big - {ptr})
    ensures Below(s', brk)
  {
    hide PageOf;
  }

  method DoStore(h: KHeap, g: Grant, ghost j: nat, k: nat, v: nat, brk: nat, ghost c: Client)
    requires h.Valid() && Agrees(h.View(), c, brk) && Within(c, j, k) && c.grants[j] == g
    modifies h.mem
    ensures h.Valid() && Agrees(h.View(), Act(c, Store(j, k, v), 0), brk)
  {
    hide Core, KeptBut, Below, PageOf, TypeOf;
    ghost var s := h.View();
    assert GrantOk(s, g);
    var w := g.ptr / 4 + k;
    assert 4 * w == g.ptr + 4 * k;
    if g.sz < 2048 {
      ghost var z :| g.sz <= z && Live(s, g.ptr, z);
      h.Store(g.ptr, z, w, v);
    } else {
      h.StoreBig(g.ptr, w, v);
    }
    Stored(s, c, j, k, v, w);
    BelowStored(s, w, v, brk);
  }

  lemma Stored(s: KS, c: Client, j: nat, k: nat, v: nat, w: nat)
    requires Granted(s, c) && Wanted(s, c) && Within(c, j, k) && w == c.grants[j].ptr / 4 + k && w < |s.m|
    requires c.grants[j].ptr % 4 == 0
    ensures var s', c' := Poked(s, w, v), Act(c, Store(j, k, v), 0); Granted(s', c') && Wanted(s', c')
  {
    hide Live;
    var s', c' := Poked(s, w, v), Act(c, Store(j, k, v), 0);
    forall h | Held(c', h)
      ensures GrantOk(s', c'.grants[h])
    {
      assert GrantOk(s, c.grants[h]);
      if c.grants[h].sz < 2048 {
        var z :| c.grants[h].sz <= z && Live(s, c.grants[h].ptr, z);
        StoredLive(s, w, v, c.grants[h].ptr, z);
      }
    }
    assert Held(c', j) && InGrant(c'.grants[j], w);
    forall x | x in c'.want
      ensures x < |s'.m| && s'.m[x] == c'.want[x] && exists h :: Held(c', h) && InGrant(c'.grants[h], x)
    {
      if x != w {
        var h :| Held(c, h) && InGrant(c.grants[h], x);
        assert Held(c', h) && InGrant(c'.grants[h], x);
      }
    }
  }

  lemma StoredLive(s: KS, w: nat, v: nat, a: nat, z: nat)
    requires w < |s.m| && Live(s, a, z)
    ensures Live(Poked(s, w, v), a, z)
  {
    var i :| LiveIn(s, i, a) && TypeOf(s, i) < NSIZES && Size(TypeOf(s, i)) == z;
    SameLive(s, w, v, i, a);
  }

  lemma BelowStored(s: KS, w: nat, v: nat, brk: nat)
    requires Below(s, brk) && w < |s.m|
    ensures Below(Poked(s, w, v), brk)
  {
  }

  lemma ActsMore(ops: seq<Op>, rs: seq<nat>, op: Op, r: nat)
    requires |rs| == |ops|
    ensures Acts(ops + [op], rs + [r]) == Act(Acts(ops, rs), op, r)
  {
    assert (ops + [op])[..|ops|] == ops && (rs + [r])[..|ops|] == rs;
  }

  /** What is held is word-aligned and does not overlap. */
  ghost predicate AllApart(c: Client) {
    && (forall j :: Held(c, j) ==> c.grants[j].ptr % 4 == 0)
    && (forall j, k :: Held(c, j) && Held(c, k) && j != k ==>
          RangesApart(c.grants[j].ptr, c.grants[j].sz, c.grants[k].ptr, c.grants[k].sz))
  }

  lemma HeldApart(s: KS, c: Client)
    requires Core(s) && Granted(s, c)
    ensures AllApart(c)
  {
    hide Core;
    forall j, k | Held(c, j) && Held(c, k) && j != k
      ensures RangesApart(c.grants[j].ptr, c.grants[j].sz, c.grants[k].ptr, c.grants[k].sz)
    {
      GrantsApart(s, c, j, k);
    }
  }

  /** Operation i stores a word within an allocation that is held then, and no later operation
      stores that word again or frees the allocation. */
  predicate LastStore(ops: seq<Op>, rs: seq<nat>, i: nat)
    requires |rs| == |ops| && i < |ops|
  {
    && ops[i].Store? && Within(Acts(ops[..i], rs[..i]), ops[i].h, ops[i].k)
    && (forall j :: i < j < |ops| ==> ops[j] != Free(ops[i].h))
    && (forall j :: i < j < |ops| && ops[j].Store? ==> ops[j].h != ops[i].h || ops[j].k != ops[i].k)
  }

  /** The word operation i stored is in memory. */
  predicate Found(m: seq<nat>, ops: seq<Op>, rs: seq<nat>, i: nat)
    requires |rs| == |ops| && i < |ops| && LastStore(ops, rs, i)
  {
    var w := Acts(ops[..i], rs[..i]).grants[ops[i].h].ptr / 4 + ops[i].k;
    w < |m| && m[w] == ops[i].v
  }

  /** The client still expects it after n operations. */
  lemma {:induction false} Persists(ops: seq<Op>, rs: seq<nat>, i: nat, n: nat)
    requires |rs| == |ops| && i < n <= |ops| && LastStore(ops, rs, i)
    requires forall j :: 0 <= j < n ==> AllApart(Acts(ops[..j], rs[..j]))
    ensures var g := Acts(ops[..i], rs[..i]).grants[ops[i].h];
            var c, w := Acts(ops[..n], rs[..n]), g.ptr / 4 + ops[i].k;
            Held(c, ops[i].h) && c.grants[ops[i].h] == g && w in c.want && c.want[w] == ops[i].v
    decreases n
  {
    hide Acts, AllApart;
    var c0, h, k := Acts(ops[..i], rs[..i]), ops[i].h, ops[i].k;
    var g := c0.grants[h];
    assert ops[..n] == ops[..n - 1] + [ops[n - 1]] && rs[..n] == rs[..n - 1] + [rs[n - 1]];
    ActsMore(ops[..n - 1], rs[..n - 1], ops[n - 1], rs[n - 1]);
    var c := Acts(ops[..n - 1], rs[..n - 1]);
    if n - 1 > i {
      Persists(ops, rs, i, n - 1);
      assert 4 * k + 4 <= g.sz;
      ActKeeps(c, ops[n - 1], rs[n - 1], h, k);
    }
  }

  /** An operation that does not free h or store its word k again keeps that word. */
  lemma ActKeeps(c: Client, op: Op, r: nat, h: nat, k: nat)
    requires AllApart(c) && Within(c, h, k) && op != Free(h)
    requires op.Store? ==> op.h != h || op.k != k
    requires c.grants[h].ptr / 4 + k in c.want
    ensures var w, c' := c.grants[h].ptr / 4 + k, Act(c, op, r);
            Held(c', h) && c'.grants[h] == c.grants[h] && w in c'.want && c'.want[w] == c.want[w]
  {
    var g, w := c.grants[h], c.grants[h].ptr / 4 + k;
    if op.Free? && Held(c, op.h) {
      assert RangesApart(c.grants[op.h].ptr, c.grants[op.h].sz, g.ptr, g.sz);
      assert !InGrant(c.grants[op.h], w);
    }
    if op.Store? && Within(c, op.h, op.k) && op.h != h {
      var g' := c.grants[op.h];
      assert RangesApart(g'.ptr, g'.sz, g.ptr, g.sz);
      assert g'.ptr / 4 + op.k != w by { WordsApart(g, g', k, op.k); }
    }
  }

  lemma WordsApart(g: Grant, g': Grant, k: nat, k': nat)
    requires RangesApart(g'.ptr, g'.sz, g.ptr, g.sz) && 4 * k + 4 <= g.sz && 4 * k' + 4 <= g'.sz
    ensures g'.ptr / 4 + k' != g.ptr / 4 + k
  {
  }

  /** From boot on, for every sequence of allocations, frees and stores: the heap stays valid, what
      the client holds is allocated and does not overlap, and every word it stored in what it still
      holds is there. */
  method Run(h: KHeap, start: nat, ops: seq<Op>) returns (grants: seq<Grant>, rs: seq<nat>)
    requires h.Valid() && h.all == [] && h.big == map[] && start > 0 && start % PAGE == 0
    requires forall k :: 0 <= k < |ops| && ops[k].Alloc? ==> ops[k].sz + PAGE - 1 < 0x1_0000_0000
    modifies h, h.refs, h.inuse, h.sizebases, h.mem
    ensures h.Valid() && |rs| == |ops| && grants == Acts(ops, rs).grants
    ensures var c := Acts(ops, rs);
            && (forall j :: Held(c, j) ==> GrantOk(h.View(), c.grants[j]))
            && (forall j, k :: Held(c, j) && Held(c, k) && j != k ==>
                  RangesApart(c.grants[j].ptr, c.grants[j].sz, c.grants[k].ptr, c.grants[k].sz))
            && (forall w :: w in c.want ==> w < h.mem.Length && h.mem[w] == c.want[w])
    // a word that was stored, and neither overwritten nor freed since, is there
    ensures forall i :: 0 <= i < |ops| && LastStore(ops, rs, i) ==> Found(h.mem[..], ops, rs, i)
  {
    hide Inv, Act, Acts, GrantOk, Below, InGrant, AllApart;
    grants, rs := [], [];
    var brk := start;
    ghost var c := Client([], map[]);
    Started(h.View(), start);
    assert Acts([], []) == c by { NoActs(); }
    for i := 0 to |ops|
      invariant h.Valid() && |rs| == i && c == Acts(ops[..i], rs) && grants == c.grants
      invariant Agrees(h.View(), c, brk)
      invariant forall n :: 0 <= n < i ==> AllApart(Acts(ops[..n], rs[..n]))
    {
      assert AllApart(c) by { ValidCore(h); HeldApart(h.View(), c); }
      assert rs[..i] == rs;
      var r := 0;
      match ops[i] {
        case Alloc(sz) =>
          r, brk := DoAlloc(h, sz, brk, c);
        case Free(k) =>
          if k < |grants| && grants[k].live {
            DoFree(h, grants[k], k, brk, c);
          }
        case Store(j, k, v) =>
          if j < |grants| && grants[j].live && 4 * k + 4 <= grants[j].sz {
            DoStore(h, grants[j], j, k, v, brk, c);
          }
      }
      grants := Noted(grants, ops[i], r);
      NotedActs(c, ops[i], r);
      ActsMore(ops[..i], rs, ops[i], r);
      assert ops[..i + 1] == ops[..i] + [ops[i]];
      assert forall n :: 0 <= n <= i ==> (rs + [r])[..n] == rs[..n];
      rs := rs + [r];
      c := Act(c, ops[i], r);
    }
    assert ops[..|ops|] == ops && rs[..|ops|] == rs;
    assert AllApart(c) by { ValidCore(h); HeldApart(h.View(), c); }
    forall i | 0 <= i < |ops| && LastStore(ops, rs, i)
      ensures Found(h.mem[..], ops, rs, i)
    {
      Persists(ops, rs, i, |ops|);
    }
    forall j, k | Held(c, j) && Held(c, k) && j != k
      ensures RangesApart(c.grants[j].ptr, c.grants[j].sz, c.grants[k].ptr, c.grants[k].sz)
    {
      ValidCore(h);
      GrantsApart(h.View(), c, j, k);
    }
  }

  lemma ValidCore(h: KHeap)
    requires h.Valid()
    ensures Core(h.View())
  {
  }

  lemma NoActs()
    ensures Acts([], []) == Client([], map[])
  {
  }

  lemma Started(s: KS, start: nat)
    requires s.all == [] && s.big == map[] && start > 0 && start % PAGE == 0
    ensures Agrees(s, Client([], map[]), start)
  {
  }

  /** The client's own table after an operation. */
  function Noted(grants: seq<Grant>, op: Op, r: nat): seq<Grant> {
    match op
    case Alloc(sz) => grants + [Grant(r, sz, r != 0)]
    case Free(k) => if k < |grants| && grants[k].live then grants[k := grants[k].(live := false)] else grants
    case Store(_, _, _) => grants
  }

  lemma NotedActs(c: Client, op: Op, r: nat)
    ensures Act(c, op, r).grants == Noted(c.grants, op, r)
    ensures op.Free? && !Held(c, op.h) ==> Act(c, op, r) == c
    ensures op.Store? && !Within(c, op.h, op.k) ==> Act(c, op, r) == c
    ensures !op.Alloc? ==> Act(c, op, r) == Act(c, op, 0)
  {
  }
}
