/** Whole runs of the user heap: a program that allocates, stores and frees in any order finds in
    every block it holds what it last stored there, until free makes it exit. */
module MallocClient {
  import opened MallocModel
  import opened Malloc

  /** An allocation the program asked for: its result, the size, and whether it is still held. */
  datatype Grant = Grant(ptr: nat, size: nat, live: bool)

  /** All allocations so far, and the granules the program expects in memory. */
  datatype Client = Client(grants: seq<Grant>, want: map<nat, Granule>)

  /** deny says whether the kernel refuses more memory; Put stores v in granule k of allocation h. */
  datatype Op = Alloc(size: nat, deny: bool) | Drop(h: nat) | Put(h: nat, k: nat, v: Granule)

  predicate Held(c: Client, h: int) { 0 <= h < |c.grants| && c.grants[h].live }

  /** A store stays within an allocation that is held. */
  predicate Within(c: Client, h: nat, k: nat) { Held(c, h) && 8 * k + 8 <= c.grants[h].size }

  /** The first granule of the data, as an index into memory. */
  function DataAt(base: nat, g: Grant): int { g.ptr / 8 - base }

  predicate InGrant(base: nat, g: Grant, w: int) {
    DataAt(base, g) <= w && 8 * (w - DataAt(base, g)) < g.size
  }

  function Outside(base: nat, want: map<nat, Granule>, g: Grant): map<nat, Granule> {
    map w | w in want && !InGrant(base, g, w) :: want[w]
  }

  /** What the program knows after an operation that returned r. It frees and stores only where it
      may. */
  function Act(base: nat, c: Client, op: Op, r: nat): Client {
    match op
    case Alloc(size, _) => c.(grants := c.grants + [Grant(r, size, r != 0)])
    case Drop(h) =>
      if Held(c, h) then Client(c.grants[h := c.grants[h].(live := false)], Outside(base, c.want, c.grants[h])) else c
    case Put(h, k, v) =>
      var w := if h < |c.grants| then DataAt(base, c.grants[h]) + k else -1;
      if Within(c, h, k) && w >= 0 then c.(want := c.want[w := v]) else c
  }

  function Acts(base: nat, ops: seq<Op>, rs: seq<nat>): Client
    requires |rs| == |ops|
  {
    if ops == [] then Client([], map[])
    else Act(base, Acts(base, ops[..|ops| - 1], rs[..|ops| - 1]), ops[|ops| - 1], rs[|ops| - 1])
  }

  /** The block of g's data is live and has len granules. */
  ghost predicate LiveFor(base: nat, bs: seq<Block>, g: Grant, len: nat) {
    DataAt(base, g) > 0 && Live(bs, DataAt(base, g) - 1, len)
  }

  /** The blocks agree that g is allocated. */
  ghost predicate GrantOk(base: nat, bs: seq<Block>, g: Grant) {
    g.ptr % 8 == 0 && exists len: nat :: LiveFor(base, bs, g, len) && 8 * (len - 1) >= g.size
  }

  ghost predicate Granted(base: nat, bs: seq<Block>, c: Client) {
    && (forall h :: Held(c, h) ==> GrantOk(base, bs, c.grants[h]))
    && (forall h, k :: Held(c, h) && Held(c, k) && h != k ==> c.grants[h].ptr != c.grants[k].ptr)
  }

  /** Every expected granule is in memory, within an allocation that is held. */
  ghost predicate Wanted(base: nat, m: seq<Granule>, c: Client) {
    forall w :: w in c.want ==>
      w < |m| && m[w] == c.want[w] && exists h :: Held(c, h) && InGrant(base, c.grants[h], w)
  }

  /** The blocks of the program's allocations are still there, with their data. */
  lemma Keeps(base: nat, bs: seq<Block>, bs': seq<Block>, m: seq<Granule>, m': seq<Granule>, c: Client)
    requires Granted(base, bs, c) && Wanted(base, m, c) && |m'| == |m|
    requires forall h, len: nat ::
               Held(c, h) && GrantOk(base, bs, c.grants[h]) && LiveFor(base, bs, c.grants[h], len) ==>
               LiveFor(base, bs', c.grants[h], len)
    requires forall b, a: nat :: b in bs && b in bs' && b.used && a < |m| && InData(b, a) ==> m'[a] == m[a]
    ensures Granted(base, bs', c) && Wanted(base, m', c)
  {
    forall h | Held(c, h)
      ensures GrantOk(base, bs', c.grants[h])
    {
      var len: nat :| LiveFor(base, bs, c.grants[h], len) && 8 * (len - 1) >= c.grants[h].size;
      assert LiveFor(base, bs', c.grants[h], len);
    }
    forall w | w in c.want
      ensures w < |m'| && m'[w] == c.want[w]
    {
      var h :| Held(c, h) && InGrant(base, c.grants[h], w);
      var g := c.grants[h];
      var len: nat :| LiveFor(base, bs, g, len) && 8 * (len - 1) >= g.size;
      var b := Block(DataAt(base, g) - 1, len, true);
      assert b in bs && b in bs' && InData(b, w);
    }
  }

  lemma Dropped(base: nat, bs: seq<Block>, m: seq<Granule>, c: Client, h: nat)
    requires Granted(base, bs, c) && Wanted(base, m, c) && Held(c, h)
    ensures var c' := Act(base, c, Drop(h), 0);
            && Granted(base, bs, c') && Wanted(base, m, c')
            && forall k :: Held(c', k) ==> c'.grants[k] == c.grants[k] && c.grants[k].ptr != c.grants[h].ptr
  {
    hide GrantOk, InGrant;
    var c' := Act(base, c, Drop(h), 0);
    assert forall k :: Held(c', k) ==> Held(c, k) && k != h && c'.grants[k] == c.grants[k];
    forall w | w in c'.want
      ensures exists k :: Held(c', k) && InGrant(base, c'.grants[k], w)
    {
      var k :| Held(c, k) && InGrant(base, c.grants[k], w);
      assert k != h && Held(c', k) && InGrant(base, c'.grants[k], w);
    }
  }

  lemma Added(base: nat, bs: seq<Block>, m: seq<Granule>, c: Client, g: Grant)
    requires Granted(base, bs, c) && Wanted(base, m, c) && (g.live ==> GrantOk(base, bs, g))
    requires g.live ==> forall h :: Held(c, h) ==> c.grants[h].ptr != g.ptr
    ensures var c' := c.(grants := c.grants + [g]); Granted(base, bs, c') && Wanted(base, m, c')
  {
    hide GrantOk, InGrant;
    var c' := c.(grants := c.grants + [g]);
    assert forall h :: 0 <= h < |c.grants| ==> c'.grants[h] == c.grants[h];
    forall w | w in c'.want
      ensures exists h :: Held(c', h) && InGrant(base, c'.grants[h], w)
    {
      var h :| Held(c, h) && InGrant(base, c.grants[h], w);
      assert Held(c', h) && InGrant(base, c'.grants[h], w);
    }
  }

  /** Two pointers to the same granule are the same pointer. */
  lemma SamePtr(base: nat, g: Grant, g': Grant)
    requires g.ptr % 8 == 0 && g'.ptr % 8 == 0 && DataAt(base, g) == DataAt(base, g')
    ensures g.ptr == g'.ptr
  {
  }

  /** The bytes of g and g' do not overlap. */
  predicate GrantApart(g: Grant, g': Grant) { g.ptr + g.size <= g'.ptr || g'.ptr + g'.size <= g.ptr }

  /** Two allocations that are held do not overlap. */
  lemma GrantsApart(base: nat, bs: seq<Block>, top: nat, c: Client, h: nat, k: nat)
    requires Tiles(bs, top) && Granted(base, bs, c) && Held(c, h) && Held(c, k) && h != k
    ensures GrantApart(c.grants[h], c.grants[k])
  {
    hide Tiles;
    var g, g' := c.grants[h], c.grants[k];
    assert GrantOk(base, bs, g) && GrantOk(base, bs, g');
    var len: nat :| LiveFor(base, bs, g, len) && 8 * (len - 1) >= g.size;
    var len': nat :| LiveFor(base, bs, g', len') && 8 * (len' - 1) >= g'.size;
    LiveApart(bs, top, DataAt(base, g) - 1, len, DataAt(base, g') - 1, len');
    if DataAt(base, g) == DataAt(base, g') {
      SamePtr(base, g, g');
      assert false;
    }
  }

  ghost predicate Agrees(h: Heap, c: Client)
    reads h, h.mem
  {
    Granted(h.base, h.bs, c) && Wanted(h.base, h.mem[..], c)
  }

  method DoAlloc(h: Heap, size: nat, deny: bool, ghost c: Client) returns (r: nat)
    requires h.Valid() && Agrees(h, c) && size < 0x8000_0000 - 16
    modifies h, h.mem
    ensures h.Valid() && Agrees(h, Act(h.base, c, Alloc(size, deny), r))
  {
    hide Tiles, Tags, Tight, FirstFit, Taken, Rounded, Granted, Wanted;
    ghost var bs, m := h.bs, h.mem[..];
    ghost var len;
    r, len := h.Malloc(size, deny);
    ghost var g := Grant(r, size, r != 0);
    if r == 0 {
      Added(h.base, bs, m, c, g);
      return;
    }
    AllocKeeps(h.base, bs, h.bs, m, h.mem[..], c, g, len);
  }

  lemma AllocKeeps(base: nat, bs: seq<Block>, bs': seq<Block>, m: seq<Granule>, m': seq<Granule>, c: Client,
                   g: Grant, len: nat)
    requires Granted(base, bs, c) && Wanted(base, m, c) && SameData(m, m', bs)
    requires g.live && g.ptr % 8 == 0 && base < g.ptr / 8 && 8 * (len - 1) >= g.size
    requires Live(bs', g.ptr / 8 - 1 - base, len)
    requires NewBlock(bs, bs', g.ptr / 8 - 1 - base, len)
    ensures Granted(base, bs', c.(grants := c.grants + [g])) && Wanted(base, m', c.(grants := c.grants + [g]))
  {
    forall h | Held(c, h)
      ensures c.grants[h].ptr != g.ptr
    {
      var x := c.grants[h];
      assert GrantOk(base, bs, x);
      var y: nat :| LiveFor(base, bs, x, y) && 8 * (y - 1) >= x.size;
    }
    Keeps(base, bs, bs', m, m', c);
    assert LiveFor(base, bs', g, len);
    Added(base, bs', m', c, g);
  }

  /** free, and whether it made the program exit. */
  method DoFree(h: Heap, g: Grant, ghost k: nat, ghost c: Client) returns (exited: bool)
    requires h.Valid() && Agrees(h, c) && Held(c, k) && c.grants[k] == g
    modifies h, h.mem
    ensures h.Valid() && (exited ==> g.size == 0 && Agrees(h, c))
    ensures !exited ==> Agrees(h, Act(h.base, c, Drop(k), 0))
  {
    hide Tiles, Tags, Tight, Freed, Granted, Wanted;
    ghost var bs, m, top := h.bs, h.mem[..], h.top;
    ghost var len := GrantLen(h.base, bs, c, k);
    LiveApart(bs, top, DataAt(h.base, g) - 1, len, DataAt(h.base, g) - 1, len);
    exited := h.Free(g.ptr, len);
    if !exited {
      FreeKeeps(h.base, bs, h.bs, m, h.mem[..], c, k);
    }
  }

  lemma GrantLen(base: nat, bs: seq<Block>, c: Client, k: nat) returns (len: nat)
    requires Granted(base, bs, c) && Held(c, k)
    ensures var g := c.grants[k];
            g.ptr % 8 == 0 && LiveFor(base, bs, g, len) && 8 * (len - 1) >= g.size
  {
    var g := c.grants[k];
    assert GrantOk(base, bs, g);
    len :| LiveFor(base, bs, g, len) && 8 * (len - 1) >= g.size;
  }

  lemma FreeKeeps(base: nat, bs: seq<Block>, bs': seq<Block>, m: seq<Granule>, m': seq<Granule>, c: Client, k: nat)
    requires Granted(base, bs, c) && Wanted(base, m, c) && Held(c, k) && SameData(m, m', bs')
    requires forall o: nat, l: nat :: Live(bs', o, l) <==> Live(bs, o, l) && o != DataAt(base, c.grants[k]) - 1
    ensures Granted(base, bs', Act(base, c, Drop(k), 0)) && Wanted(base, m', Act(base, c, Drop(k), 0))
  {
    hide Act;
    var c' := Act(base, c, Drop(k), 0);
    Dropped(base, bs, m, c, k);
    assert GrantOk(base, bs, c.grants[k]);
    forall h | Held(c', h)
      ensures GrantOk(base, bs, c'.grants[h]) ==> DataAt(base, c'.grants[h]) != DataAt(base, c.grants[k])
    {
      if GrantOk(base, bs, c'.grants[h]) && DataAt(base, c'.grants[h]) == DataAt(base, c.grants[k]) {
        SamePtr(base, c'.grants[h], c.grants[k]);
        assert false;
      }
    }
    Keeps(base, bs, bs', m, m', c');
  }

  method DoPut(h: Heap, g: Grant, ghost j: nat, k: nat, v: Granule, ghost c: Client)
    requires h.Valid() && Agrees(h, c) && Within(c, j, k) && c.grants[j] == g
    modifies h.mem
    ensures h.Valid() && Agrees(h, Act(h.base, c, Put(j, k, v), 0))
  {
    hide Tiles, Tags, Tight, Granted, Wanted;
    ghost var m := h.mem[..];
    ghost var len := GrantLen(h.base, h.bs, c, j);
    h.Store(g.ptr, len, k, v);
    PutKeeps(h.base, h.bs, m, c, j, k, v);
  }

  lemma PutKeeps(base: nat, bs: seq<Block>, m: seq<Granule>, c: Client, j: nat, k: nat, v: Granule)
    requires Granted(base, bs, c) && Wanted(base, m, c) && Within(c, j, k) && DataAt(base, c.grants[j]) > 0
    requires DataAt(base, c.grants[j]) + k < |m|
    ensures var c' := Act(base, c, Put(j, k, v), 0);
            Granted(base, bs, c') && Wanted(base, m[DataAt(base, c.grants[j]) + k := v], c')
  {
    hide GrantOk;
    var w, c' := DataAt(base, c.grants[j]) + k, Act(base, c, Put(j, k, v), 0);
    assert Held(c', j) && InGrant(base, c'.grants[j], w);
    forall x | x in c'.want
      ensures exists h :: Held(c', h) && InGrant(base, c'.grants[h], x)
    {
      if x != w {
        var h :| Held(c, h) && InGrant(base, c.grants[h], x);
        assert Held(c', h) && InGrant(base, c'.grants[h], x);
      }
    }
  }

  lemma ActsMore(base: nat, ops: seq<Op>, rs: seq<nat>, op: Op, r: nat)
    requires |rs| == |ops|
    ensures Acts(base, ops + [op], rs + [r]) == Act(base, Acts(base, ops, rs), op, r)
  {
    assert (ops + [op])[..|ops|] == ops && (rs + [r])[..|ops|] == rs;
  }

  /** The program's own table after an operation. */
  function Noted(grants: seq<Grant>, op: Op, r: nat): seq<Grant> {
    match op
    case Alloc(size, _) => grants + [Grant(r, size, r != 0)]
    case Drop(k) => if k < |grants| && grants[k].live then grants[k := grants[k].(live := false)] else grants
    case Put(_, _, _) => grants
  }

  lemma NotedActs(base: nat, c: Client, op: Op, r: nat)
    ensures Act(base, c, op, r).grants == Noted(c.grants, op, r)
    ensures op.Drop? && !Held(c, op.h) ==> Act(base, c, op, r) == c
    ensures op.Put? && !Within(c, op.h, op.k) ==> Act(base, c, op, r) == c
    ensures !op.Alloc? ==> Act(base, c, op, r) == Act(base, c, op, 0)
  {
  }

  /** One operation; exited when free ended the program. */
  method DoOp(h: Heap, op: Op, grants: seq<Grant>, ghost c: Client) returns (r: nat, exited: bool)
    requires h.Valid() && Agrees(h, c) && grants == c.grants && (op.Alloc? ==> op.size < 0x8000_0000 - 16)
    modifies h, h.mem
    ensures h.Valid()
    ensures exited ==> op.Drop? && Held(c, op.h) && c.grants[op.h].size == 0
    ensures !exited ==> Agrees(h, Act(h.base, c, op, r))
    ensures exited ==> Agrees(h, c)
  {
    hide Tiles, Tags, Tight, Granted, Wanted, Act;
    r, exited := 0, false;
    NotedActs(h.base, c, op, 0);
    match op
    case Alloc(size, deny) => r := DoAlloc(h, size, deny, c);
    case Drop(k) =>
      if k < |grants| && grants[k].live {
        exited := DoFree(h, grants[k], k, c);
      }
    case Put(j, k, v) =>
      if j < |grants| && grants[j].live && 8 * k + 8 <= grants[j].size {
        DoPut(h, grants[j], j, k, v, c);
      }
  }

  /** What is held lies above the base and does not overlap. */
  ghost predicate AllApart(base: nat, c: Client) {
    && (forall j :: Held(c, j) ==> c.grants[j].ptr % 8 == 0 && DataAt(base, c.grants[j]) >= 0)
    && (forall j, k :: Held(c, j) && Held(c, k) && j != k ==> GrantApart(c.grants[j], c.grants[k]))
  }

  lemma AllApartIs(base: nat, c: Client)
    requires AllApart(base, c)
    ensures forall j, k :: Held(c, j) && Held(c, k) && j != k ==> GrantApart(c.grants[j], c.grants[k])
  {
  }

  lemma HeldApart(h: Heap, c: Client)
    requires h.Valid() && Agrees(h, c)
    ensures AllApart(h.base, c)
  {
    hide Tiles, Tags, Tight, Dead;
    forall j, k | Held(c, j) && Held(c, k) && j != k
      ensures GrantApart(c.grants[j], c.grants[k])
    {
      GrantsApart(h.base, h.bs, h.top, c, j, k);
    }
  }

  /** Operation i stores a granule within an allocation that is held then, and no later operation
      stores that granule again or frees the allocation. */
  predicate LastPut(base: nat, ops: seq<Op>, rs: seq<nat>, i: nat)
    requires |rs| == |ops| && i < |ops|
  {
    && ops[i].Put? && Within(Acts(base, ops[..i], rs[..i]), ops[i].h, ops[i].k)
    && (forall j :: i < j < |ops| ==> ops[j] != Drop(ops[i].h))
    && (forall j :: i < j < |ops| && ops[j].Put? ==> ops[j].h != ops[i].h || ops[j].k != ops[i].k)
  }

  /** The granule operation i stored is in memory. */
  predicate Found(base: nat, m: seq<Granule>, ops: seq<Op>, rs: seq<nat>, i: nat)
    requires |rs| == |ops| && i < |ops|
  {
    LastPut(base, ops, rs, i) ==>
      var w := Acts(base, ops[..i], rs[..i]).grants[ops[i].h].ptr / 8 - base + ops[i].k;
      0 <= w < |m| && m[w] == ops[i].v
  }

  lemma FoundIf(base: nat, m: seq<Granule>, ops: seq<Op>, rs: seq<nat>, i: nat)
    requires |rs| == |ops| && i < |ops| && LastPut(base, ops, rs, i)
    requires var g := Acts(base, ops[..i], rs[..i]).grants[ops[i].h];
             var w := DataAt(base, g) + ops[i].k; 0 <= w < |m| && m[w] == ops[i].v
    ensures Found(base, m, ops, rs, i)
  {
    hide Acts;
  }

  /** The program still expects it after n operations. */
  lemma {:induction false} Persists(base: nat, ops: seq<Op>, rs: seq<nat>, i: nat, n: nat)
    requires |rs| == |ops| && i < n <= |ops| && LastPut(base, ops, rs, i)
    requires forall j :: 0 <= j < n ==> AllApart(base, Acts(base, ops[..j], rs[..j]))
    ensures var g := Acts(base, ops[..i], rs[..i]).grants[ops[i].h];
            var c, w := Acts(base, ops[..n], rs[..n]), DataAt(base, g) + ops[i].k;
            Held(c, ops[i].h) && c.grants[ops[i].h] == g && w >= 0 && w in c.want && c.want[w] == ops[i].v
    decreases n
  {
    hide Acts, AllApart;
    var c0, h, k := Acts(base, ops[..i], rs[..i]), ops[i].h, ops[i].k;
    var g := c0.grants[h];
    assert ops[..n] == ops[..n - 1] + [ops[n - 1]] && rs[..n] == rs[..n - 1] + [rs[n - 1]];
    ActsMore(base, ops[..n - 1], rs[..n - 1], ops[n - 1], rs[n - 1]);
    var c := Acts(base, ops[..n - 1], rs[..n - 1]);
    AboveBase(base, c, h);
    if n - 1 > i {
      Persists(base, ops, rs, i, n - 1);
      ActKeeps(base, c, ops[n - 1], rs[n - 1], h, k);
    }
  }

  lemma AboveBase(base: nat, c: Client, h: nat)
    requires AllApart(base, c)
    ensures Held(c, h) ==> DataAt(base, c.grants[h]) >= 0
  {
  }

  /** An operation that does not free h or store its granule k again keeps that granule. */
  lemma ActKeeps(base: nat, c: Client, op: Op, r: nat, h: nat, k: nat)
    requires AllApart(base, c) && Within(c, h, k) && op != Drop(h)
    requires op.Put? ==> op.h != h || op.k != k
    requires DataAt(base, c.grants[h]) + k >= 0 && DataAt(base, c.grants[h]) + k in c.want
    ensures var w, c' := DataAt(base, c.grants[h]) + k, Act(base, c, op, r);
            Held(c', h) && c'.grants[h] == c.grants[h] && w in c'.want && c'.want[w] == c.want[w]
  {
    var g, w := c.grants[h], DataAt(base, c.grants[h]) + k;
    if op.Drop? && Held(c, op.h) {
      var g' := c.grants[op.h];
      assert GrantApart(g', g);
      NotInside(base, g, g', k);
    }
    if op.Put? && Within(c, op.h, op.k) && op.h != h {
      var g' := c.grants[op.h];
      assert GrantApart(g', g);
      assert DataAt(base, g') + op.k != w;
    }
  }

  lemma NotInside(base: nat, g: Grant, g': Grant, k: nat)
    requires GrantApart(g', g) && g.ptr % 8 == 0 && g'.ptr % 8 == 0 && 8 * k + 8 <= g.size
    ensures !InGrant(base, g', DataAt(base, g) + k)
  {
  }

  /** From an empty heap on, for every sequence of allocations, frees and stores, up to the point
      where free makes the program exit: what the program holds does not overlap, and every granule
      it stored in what it still holds is there. Only freeing an allocation of size 0 can make it
      exit. */
  method Run(h: Heap, ops: seq<Op>) returns (n: nat, rs: seq<nat>, exited: bool)
    requires h.Valid() && h.bs == []
    requires forall k :: 0 <= k < |ops| && ops[k].Alloc? ==> ops[k].size < 0x8000_0000 - 16
    modifies h, h.mem
    ensures h.Valid() && n <= |ops| && |rs| == n && (exited <==> n < |ops|)
    ensures var c := Acts(h.base, ops[..n], rs);
            && (exited ==> ops[n].Drop? && Held(c, ops[n].h) && c.grants[ops[n].h].size == 0)
            && (forall j :: Held(c, j) ==> GrantOk(h.base, h.bs, c.grants[j]))
            && (forall j, k :: Held(c, j) && Held(c, k) && j != k ==>
                  GrantApart(c.grants[j], c.grants[k]))
            && (forall w :: w in c.want ==> w < h.mem.Length && h.mem[w] == c.want[w])
    // a granule that was stored, and neither overwritten nor freed since, is there
    ensures forall i :: 0 <= i < n && LastPut(h.base, ops[..n], rs, i) ==> Found(h.base, h.mem[..], ops[..n], rs, i)
  {
    hide Tiles, Tags, Tight, Act, Acts, GrantOk, InGrant, AllApart, LastPut, Found;
    rs, exited, n := [], false, 0;
    var grants := [];
    ghost var c := Client([], map[]);
    assert Acts(h.base, [], []) == c by { NoActs(h.base); }
    while n < |ops| && !exited
      invariant h.Valid() && n <= |ops| && |rs| == n && c == Acts(h.base, ops[..n], rs) && grants == c.grants
      invariant Agrees(h, c)
      invariant forall m :: 0 <= m < n ==> AllApart(h.base, Acts(h.base, ops[..m], rs[..m]))
      invariant exited ==> n < |ops| && ops[n].Drop? && Held(c, ops[n].h) && c.grants[ops[n].h].size == 0
      decreases |ops| - n, !exited
    {
      assert AllApart(h.base, c) by { HeldApart(h, c); }
      assert rs[..n] == rs;
      var r;
      r, exited := DoOp(h, ops[n], grants, c);
      if !exited {
        NotedActs(h.base, c, ops[n], r);
        ActsMore(h.base, ops[..n], rs, ops[n], r);
        assert ops[..n + 1] == ops[..n] + [ops[n]];
        grants := Noted(grants, ops[n], r);
        assert forall m :: 0 <= m <= n ==> (rs + [r])[..m] == rs[..m];
        rs := rs + [r];
        c := Act(h.base, c, ops[n], r);
        n := n + 1;
      }
    }
    HeldApart(h, c);
    AllApartIs(h.base, c);
    assert rs[..n] == rs && ops[..n][..n] == ops[..n];
    assert forall m :: 0 <= m < n ==> ops[..n][..m] == ops[..m];
    forall i | 0 <= i < n && LastPut(h.base, ops[..n], rs, i)
      ensures Found(h.base, h.mem[..], ops[..n], rs, i)
    {
      Persists(h.base, ops[..n], rs, i, n);
      FoundIf(h.base, h.mem[..], ops[..n], rs, i);
    }
  }

  lemma NoActs(base: nat)
    ensures Acts(base, [], []) == Client([], map[])
  {
  }
}
