/** The state of a mounted SFS volume as a value, the block-ownership invariant
    that a consistency checker would verify, and what a file contains. */
module SfsModel {
  import opened Codec

  const ROOT := 1
  const MAPLOC := 2
  const MAXDISK := 131072  // mksfs: at most 32 bitmap blocks
  const MAXBLOCKS := 143   // SFS_NDIRECT + SFS_DBPERIDB

  /** A place that can hold a block number. */
  datatype Slot =
    | InodeOf(ino: nat)
    | Direct(ino: nat, k: nat)
    | IndirectOf(ino: nat)
    | IndSlot(ino: nat, k: nat)

  /** struct sfs_vnode: the in-memory inode, its dirty flag and its reference count. */
  datatype Vnode = Vnode(inode: Inode, dirty: bool, refs: nat)

  /** Disk blocks, the set bits of the free map, and the vnode table. */
  datatype FS = FS(disk: seq<Block>, used: set<nat>, vn: map<nat, Vnode>)

  type Owners = map<nat, Slot>

  function BitmapSize(n: nat): nat { (n + 4095) / 4096 * 4096 }

  function BitBlocks(n: nat): nat { BitmapSize(n) / 4096 }

  /** Superblock, free map blocks, and map bits past the end of the disk. */
  predicate IsReserved(n: nat, b: nat) {
    b < BitmapSize(n) && (b == 0 || MAPLOC <= b < MAPLOC + BitBlocks(n) || n <= b)
  }

  function Reserved(n: nat): set<nat> {
    set b | 0 <= b < BitmapSize(n) && IsReserved(n, b)
  }

  predicate IsInode(o: Owners, i: nat) { i in o && o[i] == InodeOf(i) }

  predicate SlotOk(o: Owners, s: Slot) {
    IsInode(o, s.ino) && (s.Direct? ==> s.k < 15) && (s.IndSlot? ==> s.k < 128)
  }

  function BlockAt(fs: FS, b: nat): Block {
    if b < |fs.disk| then fs.disk[b] else ZeroBlock
  }

  /** The current inode: the loaded copy if there is one, else what is on disk. */
  function Cur(fs: FS, i: nat): Inode {
    if i in fs.vn then fs.vn[i].inode else DecodeInode(BlockAt(fs, i))
  }

  /** The block number a slot holds; 0 is none. */
  function Ref(fs: FS, s: Slot): nat {
    match s
    case InodeOf(i) => i
    case Direct(i, k) => if k < 15 then Cur(fs, i).direct[k] else 0
    case IndirectOf(i) => Cur(fs, i).indirect
    case IndSlot(i, k) =>
      if Cur(fs, i).indirect == 0 || k >= 128 then 0
      else ToWords(BlockAt(fs, Cur(fs, i).indirect))[k]
  }

  /** A loaded vnode whose dirty flag is clear agrees with the disk. */
  predicate Clean(fs: FS) {
    forall i :: i in fs.vn && !fs.vn[i].dirty ==> DecodeInode(BlockAt(fs, i)) == fs.vn[i].inode
  }

  /** Block ownership, for a table r of what each slot holds: o maps each used, unreserved
      block to the one slot that refers to it. */
  ghost predicate Owns(r: Slot -> nat, n: nat, used: set<nat>, o: Owners) {
    && (forall b :: b in o ==> b < n && !IsReserved(n, b))
    && used == Reserved(n) + o.Keys
    && (forall b :: b in o ==> SlotOk(o, o[b]) && r(o[b]) == b)
    && (forall s :: SlotOk(o, s) && r(s) != 0 ==> r(s) in o && o[r(s)] == s)
  }

  function Refs(fs: FS): Slot -> nat { s => Ref(fs, s) }

  ghost predicate Owned(fs: FS, o: Owners) {
    Owns(Refs(fs), |fs.disk|, fs.used, o)
  }

  ghost predicate Inv(fs: FS, o: Owners) {
    && MAPLOC + BitBlocks(|fs.disk|) <= |fs.disk| <= MAXDISK
    && Owned(fs, o)
    && IsInode(o, ROOT)
    && (forall i :: i in fs.vn ==> IsInode(o, i) && fs.vn[i].refs > 0)
    && Clean(fs)
  }

  // ---------------------------------------------------------------- file contents

  function DataSlot(i: nat, fb: nat): Slot {
    if fb < 15 then Direct(i, fb) else IndSlot(i, fb - 15)
  }

  function FileBlock(fs: FS, i: nat, fb: nat): Block {
    var b := Ref(fs, DataSlot(i, fb));
    if b == 0 then ZeroBlock else BlockAt(fs, b)
  }

  function FileByte(fs: FS, i: nat, p: nat): byte {
    FileBlock(fs, i, p / 512)[p % 512]
  }

  /** The bytes of file i. */
  function Content(fs: FS, i: nat): seq<byte> {
    seq(Cur(fs, i).size, p requires 0 <= p => FileByte(fs, i, p))
  }

  /** Inode fields other than the block pointers. */
  predicate SameMeta(a: Inode, b: Inode) {
    a.size == b.size && a.itype == b.itype && a.linkcount == b.linkcount
  }

  ghost predicate SameBlocks(fs: FS, fs': FS, i: nat) {
    forall fb :: FileBlock(fs', i, fb) == FileBlock(fs, i, fb)
  }

  /** Every file that is an inode in o keeps its metadata and all of its blocks. */
  ghost predicate SameFiles(fs: FS, fs': FS, o: Owners) {
    forall i :: IsInode(o, i) ==> SameMeta(Cur(fs, i), Cur(fs', i)) && SameBlocks(fs, fs', i)
  }

  /** Like SameFiles, for every file but one. */
  ghost predicate OthersSame(fs: FS, fs': FS, o: Owners, x: nat) {
    forall i :: IsInode(o, i) && i != x ==> SameMeta(Cur(fs, i), Cur(fs', i)) && SameBlocks(fs, fs', i)
  }

  ghost predicate SameInodes(o: Owners, o': Owners) {
    forall i :: IsInode(o, i) <==> IsInode(o', i)
  }

  // ---------------------------------------------------------------- changing one reference

  lemma UnusedIsFree(r: Slot -> nat, n: nat, used: set<nat>, o: Owners, b: nat)
    requires Owns(r, n, used, o)
    requires b < n && b !in used
    ensures b !in o && b != 0 && !IsReserved(n, b)
  {
    assert b < BitmapSize(n);
  }

  /** Pointing slot t at a fresh block keeps ownership exact. */
  lemma AddRef(r: Slot -> nat, n: nat, used: set<nat>, o: Owners, r': Slot -> nat, t: Slot, b: nat)
    requires Owns(r, n, used, o)
    requires b < n && b !in used
    requires SlotOk(o[b := t], t) && r'(t) == b
    requires SlotOk(o, t) ==> r(t) == 0
    requires forall s :: SlotOk(o[b := t], s) && s != t ==> r'(s) == if SlotOk(o, s) then r(s) else 0
    ensures Owns(r', n, used + {b}, o[b := t])
  {
    UnusedIsFree(r, n, used, o, b);
    var o' := o[b := t];
    forall c | c in o'
      ensures SlotOk(o', o'[c]) && r'(o'[c]) == c
    {
      if c != b {
        assert SlotOk(o, o[c]);
        assert o[c] != t;
      }
    }
  }

  /** Clearing the slots selected by d, and the bits of the blocks they held. */
  lemma DropRefs(r: Slot -> nat, n: nat, used: set<nat>, o: Owners, r': Slot -> nat, used': set<nat>, o': Owners,
                 d: Slot -> bool)
    requires Owns(r, n, used, o)
    requires o' == map c | c in o && !d(o[c]) :: o[c]
    requires used' == used - (set c | c in o && d(o[c]))
    requires forall s :: SlotOk(o, s) && d(InodeOf(s.ino)) ==> d(s) || r(s) == 0
    requires forall s :: SlotOk(o', s) ==> r'(s) == if d(s) then 0 else r(s)
    ensures Owns(r', n, used', o')
  {
    forall s | SlotOk(o, s) && !d(InodeOf(s.ino))
      ensures SlotOk(o', s)
    {
    }
    assert forall s :: SlotOk(o', s) ==> SlotOk(o, s) && !d(InodeOf(s.ino));
    forall c | c in o'
      ensures SlotOk(o', o'[c]) && r'(o'[c]) == c
    {
      var s := o[c];
      assert SlotOk(o, s) && r(s) == c;
      UnusedNotZero(r, n, used, o, c);
    }
    assert forall c :: c in o && d(o[c]) ==> !IsReserved(n, c);
  }

  lemma UnusedNotZero(r: Slot -> nat, n: nat, used: set<nat>, o: Owners, c: nat)
    requires Owns(r, n, used, o) && c in o
    ensures c != 0
  {
    assert !IsReserved(n, c);
  }

  // ---------------------------------------------------------------- block allocation steps

  /** sfs_balloc: the bit is set and the block is cleared. */
  function Balloced(fs: FS, b: nat): FS
    requires b < |fs.disk|
  {
    fs.(disk := fs.disk[b := ZeroBlock], used := fs.used + {b})
  }

  function WithInode(fs: FS, i: nat, x: Inode): FS
    requires i in fs.vn
  {
    fs.(vn := fs.vn[i := fs.vn[i].(inode := x, dirty := true)])
  }

  function GrowDirect(fs: FS, i: nat, k: nat, b: u32): FS
    requires i in fs.vn && k < 15 && b < |fs.disk|
  {
    var x := fs.vn[i].inode;
    WithInode(Balloced(fs, b), i, x.(direct := x.direct[k := b]))
  }

  function GrowIndirect(fs: FS, i: nat, b: u32): FS
    requires i in fs.vn && b < |fs.disk|
  {
    WithInode(Balloced(fs, b), i, fs.vn[i].inode.(indirect := b))
  }

  function GrowIndSlot(fs: FS, i: nat, k: nat, b: u32): FS
    requires i in fs.vn && k < 128 && b < |fs.disk| && fs.vn[i].inode.indirect < |fs.disk|
  {
    var fs1 := Balloced(fs, b);
    var ib := fs.vn[i].inode.indirect;
    fs1.(disk := fs1.disk[ib := FromWords(ToWords(fs1.disk[ib])[k := b])])
  }

  function Grow(fs: FS, t: Slot, b: u32): FS
    requires t.ino in fs.vn && !t.InodeOf? && b < |fs.disk|
    requires t.Direct? ==> t.k < 15
    requires t.IndSlot? ==> t.k < 128 && fs.vn[t.ino].inode.indirect < |fs.disk|
  {
    match t
    case Direct(i, k) => GrowDirect(fs, i, k, b)
    case IndirectOf(i) => GrowIndirect(fs, i, b)
    case IndSlot(i, k) => GrowIndSlot(fs, i, k, b)
  }

  /** When slot t may be given the fresh block b. */
  ghost predicate CanGrow(fs: FS, o: Owners, t: Slot, b: u32) {
    && Inv(fs, o)
    && b < |fs.disk| && b !in fs.used
    && t.ino in fs.vn && !t.InodeOf? && SlotOk(o, t) && Ref(fs, t) == 0
    && (t.Direct? ==> t.k < 15)
    && (t.IndSlot? ==> t.k < 128 && 0 < fs.vn[t.ino].inode.indirect < |fs.disk|)
  }

  lemma FreshBlock(fs: FS, o: Owners, b: nat)
    requires Owned(fs, o) && b < |fs.disk| && b !in fs.used
    ensures b !in o && b != 0
  {
    hide Ref;
    UnusedIsFree(Refs(fs), |fs.disk|, fs.used, o, b);
  }

  lemma RefOwned(fs: FS, o: Owners, s: Slot)
    requires Owned(fs, o) && SlotOk(o, s) && Ref(fs, s) != 0
    ensures Ref(fs, s) in o && o[Ref(fs, s)] == s && Ref(fs, s) < |fs.disk| && Ref(fs, s) in fs.used
  {
    hide DecodeInode, ToWords, FromWords, Ref, SlotOk;
    assert Refs(fs)(s) == Ref(fs, s);
  }

  lemma GrowFacts(fs: FS, o: Owners, t: Slot, b: u32)
    requires CanGrow(fs, o, t, b)
    ensures b !in o && b != 0
    ensures t.IndSlot? ==> var ib := fs.vn[t.ino].inode.indirect; ib in o && o[ib] == IndirectOf(t.ino)
  {
    hide DecodeInode, ToWords, FromWords;
    UnusedIsFree(Refs(fs), |fs.disk|, fs.used, o, b);
    var s := IndirectOf(t.ino);
    assert SlotOk(o, s);
    if Ref(fs, s) != 0 { RefOwned(fs, o, s); }
  }

  lemma GrowRefs(fs: FS, o: Owners, t: Slot, b: u32, s: Slot)
    requires CanGrow(fs, o, t, b) && SlotOk(o, s)
    ensures Ref(Grow(fs, t, b), s) == if s == t then b else Ref(fs, s)
  {
    hide DecodeInode, ToWords, FromWords, Owned, Clean;
    GrowFacts(fs, o, t, b);
    if s.IndSlot? {
      GrowIndSlotRefs(fs, o, t, b, s);
    }
  }

  lemma GrowIndSlotRefs(fs: FS, o: Owners, t: Slot, b: u32, s: Slot)
    requires CanGrow(fs, o, t, b) && SlotOk(o, s) && s.IndSlot?
    ensures Ref(Grow(fs, t, b), s) == if s == t then b else Ref(fs, s)
  {
    hide DecodeInode, ToWords, FromWords, Owned, Clean;
    GrowFacts(fs, o, t, b);
    var u := IndirectOf(s.ino);
    if Ref(fs, u) != 0 { RefOwned(fs, o, u); }
    if t.IndSlot? {
      WordsRoundTrip(ToWords(fs.disk[fs.vn[t.ino].inode.indirect])[t.k := b]);
    } else {
      ZeroBlockWords();
    }
  }

  lemma SlotsKept(o: Owners, b: nat, t: Slot)
    requires b !in o && !t.InodeOf?
    ensures SameInodes(o, o[b := t])
    ensures forall s :: SlotOk(o[b := t], s) <==> SlotOk(o, s)
  {
    assert forall i :: IsInode(o, i) <==> IsInode(o[b := t], i);
  }

  lemma GrowOwned(fs: FS, o: Owners, t: Slot, b: u32)
    requires CanGrow(fs, o, t, b)
    ensures Owned(Grow(fs, t, b), o[b := t])
  {
    hide DecodeInode, ToWords, FromWords, Ref, Grow, Owns, SlotOk, Cur, Clean;
    GrowFacts(fs, o, t, b);
    GrowClean(fs, o, t, b);
    SlotsKept(o, b, t);
    var fs' := Grow(fs, t, b);
    forall s | SlotOk(o, s)
      ensures Refs(fs')(s) == if s == t then b else Refs(fs)(s)
    {
      GrowRefs(fs, o, t, b, s);
    }
    AddRef(Refs(fs), |fs.disk|, fs.used, o, Refs(fs'), t, b);
  }

  lemma GrowInv(fs: FS, o: Owners, t: Slot, b: u32)
    requires CanGrow(fs, o, t, b)
    ensures Inv(Grow(fs, t, b), o[b := t]) && SameInodes(o, o[b := t])
  {
    hide DecodeInode, ToWords, FromWords, Ref, Grow, Owned, SlotOk, Cur, Clean;
    GrowFacts(fs, o, t, b);
    SlotsKept(o, b, t);
    GrowOwned(fs, o, t, b);
    GrowClean(fs, o, t, b);
  }

  lemma GrowClean(fs: FS, o: Owners, t: Slot, b: u32)
    requires CanGrow(fs, o, t, b)
    ensures Clean(Grow(fs, t, b))
    ensures Grow(fs, t, b).vn.Keys == fs.vn.Keys
    ensures forall i :: i in fs.vn ==> Grow(fs, t, b).vn[i].refs == fs.vn[i].refs
    ensures |Grow(fs, t, b).disk| == |fs.disk| && Grow(fs, t, b).used == fs.used + {b}
    ensures forall i :: IsInode(o, i) ==> SameMeta(Cur(fs, i), Cur(Grow(fs, t, b), i))
  {
    hide DecodeInode, ToWords, FromWords, Ref, Owned, SlotOk;
    GrowFacts(fs, o, t, b);
  }

  /** A fresh block is all zeros, so allocation changes what no file contains. */
  lemma GrowSameFiles(fs: FS, o: Owners, t: Slot, b: u32)
    requires CanGrow(fs, o, t, b)
    ensures SameFiles(fs, Grow(fs, t, b), o)
  {
    hide DecodeInode, ToWords, FromWords, Ref, Grow, Owned, SlotOk, Cur, Clean, FileBlock;
    GrowClean(fs, o, t, b);
    forall i, fb | IsInode(o, i)
      ensures FileBlock(Grow(fs, t, b), i, fb) == FileBlock(fs, i, fb)
    {
      GrowSameBlock(fs, o, t, b, i, fb);
    }
  }

  lemma GrowSameBlock(fs: FS, o: Owners, t: Slot, b: u32, i: nat, fb: nat)
    requires CanGrow(fs, o, t, b) && IsInode(o, i)
    ensures FileBlock(Grow(fs, t, b), i, fb) == FileBlock(fs, i, fb)
  {
    hide DecodeInode, ToWords, FromWords, Owned, Clean;
    GrowFacts(fs, o, t, b);
    var s := DataSlot(i, fb);
    if fb < MAXBLOCKS {
      GrowRefs(fs, o, t, b, s);
      if Ref(fs, s) != 0 { RefOwned(fs, o, s); }
    }
  }
}
