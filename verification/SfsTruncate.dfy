/** sfs_truncate, creation of inodes and their release, as changes of the volume value. */
module SfsTruncate {
  import opened Codec
  import opened SfsModel
  import opened SfsSteps

  // ---------------------------------------------------------------- new inodes

  /** sfs_makeobj: a cleared block becomes an inode with a loaded, dirty vnode. */
  function NewInode(fs: FS, b: u32, itype: u16): FS
    requires b < |fs.disk|
  {
    var fs1 := Balloced(fs, b);
    fs1.(vn := fs1.vn[b := Vnode(ZeroInode.(itype := itype), true, 1)])
  }

  lemma NewInodeRefs(fs: FS, o: Owners, b: u32, itype: u16, s: Slot)
    requires Inv(fs, o) && b < |fs.disk| && b !in fs.used
    requires SlotOk(o[b := InodeOf(b)], s) && s != InodeOf(b)
    ensures Ref(NewInode(fs, b, itype), s) == if SlotOk(o, s) then Ref(fs, s) else 0
  {
    hide DecodeInode, ToWords, FromWords, Owned, Clean;
    FreshBlock(fs, o, b);
    if s.ino != b {
      var u := IndirectOf(s.ino);
      if Ref(fs, u) != 0 { RefOwned(fs, o, u); }
    }
  }

  lemma NewInodeOwned(fs: FS, o: Owners, b: u32, itype: u16)
    requires Inv(fs, o) && b < |fs.disk| && b !in fs.used
    ensures Owned(NewInode(fs, b, itype), o[b := InodeOf(b)])
  {
    hide DecodeInode, ToWords, FromWords, Owns, Cur, Clean, Ref;
    var fs', t := NewInode(fs, b, itype), InodeOf(b);
    UnusedIsFree(Refs(fs), |fs.disk|, fs.used, o, b);
    forall s | SlotOk(o[b := t], s) && s != t
      ensures Refs(fs')(s) == if SlotOk(o, s) then Refs(fs)(s) else 0
    {
      NewInodeRefs(fs, o, b, itype, s);
    }
    assert Refs(fs')(t) == b by { InodeOfRef(fs', b); }
    AddRef(Refs(fs), |fs.disk|, fs.used, o, Refs(fs'), t, b);
  }

  lemma InodeOfRef(fs: FS, b: nat)
    ensures Ref(fs, InodeOf(b)) == b
  {
  }

  lemma NewInodeInv(fs: FS, o: Owners, b: u32, itype: u16)
    requires Inv(fs, o) && b < |fs.disk| && b !in fs.used
    ensures b !in o && b != 0 && b !in fs.vn
    ensures Inv(NewInode(fs, b, itype), o[b := InodeOf(b)])
    ensures SameFiles(fs, NewInode(fs, b, itype), o)
    ensures forall i :: IsInode(o, i) ==> Cur(NewInode(fs, b, itype), i) == Cur(fs, i)
  {
    hide DecodeInode, ToWords, FromWords, Owned, Ref, FileBlock;
    FreshBlock(fs, o, b);
    NewInodeOwned(fs, o, b, itype);
    forall i, fb | IsInode(o, i)
      ensures FileBlock(NewInode(fs, b, itype), i, fb) == FileBlock(fs, i, fb)
    {
      NewInodeBlock(fs, o, b, itype, i, fb);
    }
  }

  lemma NewInodeBlock(fs: FS, o: Owners, b: u32, itype: u16, i: nat, fb: nat)
    requires Inv(fs, o) && b < |fs.disk| && b !in fs.used && IsInode(o, i)
    ensures FileBlock(NewInode(fs, b, itype), i, fb) == FileBlock(fs, i, fb)
  {
    hide DecodeInode, ToWords, FromWords, Owned, Clean;
    var s := DataSlot(i, fb);
    FreshBlock(fs, o, b);
    if fb < MAXBLOCKS {
      NewInodeRefs(fs, o, b, itype, s);
      if Ref(fs, s) != 0 { RefOwned(fs, o, s); }
    }
  }

  // ---------------------------------------------------------------- freeing an inode

  predicate NoBlocks(x: Inode) {
    x.indirect == 0 && forall k :: 0 <= k < 15 ==> x.direct[k] == 0
  }

  /** The end of sfs_reclaim for a file without links: the inode's block is freed and its
      vnode leaves the table. */
  function FreedInode(fs: FS, i: nat): FS {
    fs.(used := fs.used - {i}, vn := fs.vn - {i})
  }

  lemma FreedInodeRefs(fs: FS, o: Owners, i: nat, s: Slot)
    requires Inv(fs, o) && SlotOk(o, s) && s.ino != i
    ensures Ref(FreedInode(fs, i), s) == Ref(fs, s)
  {
    hide DecodeInode, ToWords, Owned;
  }

  lemma FreedInodeOwned(fs: FS, o: Owners, i: nat)
    requires Inv(fs, o) && IsInode(o, i) && i in fs.vn && NoBlocks(fs.vn[i].inode)
    ensures Owned(FreedInode(fs, i), o - {i})
  {
    hide DecodeInode, ToWords, FromWords, Owns, Cur, Clean, Ref;
    var d := (s: Slot) => s.ino == i;
    var o', fs' := map c | c in o && !d(o[c]) :: o[c], FreedInode(fs, i);
    forall s | SlotOk(o, s) && s.ino == i && !s.InodeOf?
      ensures Refs(fs)(s) == 0
    {
      NoBlocksRef(fs, i, s);
    }
    forall c | c in o && d(o[c])
      ensures c == i
    {
      OwnedAt(fs, o, c);
      if !o[c].InodeOf? { assert Refs(fs)(o[c]) == 0; UnusedNotZero(Refs(fs), |fs.disk|, fs.used, o, c); }
      else { InodeOfRef(fs, i); }
    }
    assert o' == o - {i};
    assert (set c | c in o && d(o[c])) == {i};
    forall s | SlotOk(o', s)
      ensures Refs(fs')(s) == if d(s) then 0 else Refs(fs)(s)
    {
      FreedInodeRefs(fs, o, i, s);
    }
    DropRefs(Refs(fs), |fs.disk|, fs.used, o, Refs(fs'), fs'.used, o', d);
  }

  lemma OwnedAt(fs: FS, o: Owners, c: nat)
    requires Owned(fs, o) && c in o
    ensures SlotOk(o, o[c]) && Ref(fs, o[c]) == c && c < |fs.disk| && c in fs.used
  {
    hide DecodeInode, ToWords, FromWords, Ref, SlotOk;
    assert Refs(fs)(o[c]) == Ref(fs, o[c]);
  }

  lemma IndirectInRange(fs: FS, o: Owners, i: nat)
    requires Inv(fs, o) && i in fs.vn
    ensures fs.vn[i].inode.indirect < |fs.disk|
  {
    hide DecodeInode, ToWords, Owned, Clean;
    OwnedAt(fs, o, i);
    if fs.vn[i].inode.indirect != 0 { RefOwned(fs, o, IndirectOf(i)); }
  }

  lemma NoBlocksRef(fs: FS, i: nat, s: Slot)
    requires i in fs.vn && NoBlocks(fs.vn[i].inode) && s.ino == i && !s.InodeOf?
    ensures Ref(fs, s) == 0
  {
  }

  lemma FreedInodeInv(fs: FS, o: Owners, i: nat)
    requires Inv(fs, o) && IsInode(o, i) && i in fs.vn && NoBlocks(fs.vn[i].inode) && i != ROOT
    ensures Inv(FreedInode(fs, i), o - {i})
    ensures OthersSame(fs, FreedInode(fs, i), o, i)
    ensures forall j :: IsInode(o, j) && j != i ==> Cur(FreedInode(fs, i), j) == Cur(fs, j)
  {
    hide DecodeInode, ToWords, Owned, Ref, FileBlock;
    FreedInodeOwned(fs, o, i);
    forall j, fb | IsInode(o, j) && j != i
      ensures FileBlock(FreedInode(fs, i), j, fb) == FileBlock(fs, j, fb)
    {
      FreedInodeBlock(fs, o, i, j, fb);
    }
  }

  lemma FreedInodeBlock(fs: FS, o: Owners, i: nat, j: nat, fb: nat)
    requires Inv(fs, o) && IsInode(o, j) && j != i
    ensures FileBlock(FreedInode(fs, i), j, fb) == FileBlock(fs, j, fb)
  {
    hide DecodeInode, ToWords, Owned, Ref;
    if fb < MAXBLOCKS {
      FreedInodeRefs(fs, o, i, DataSlot(j, fb));
    } else {
      PastEnd(fs, j, fb);
      PastEnd(FreedInode(fs, i), j, fb);
    }
  }

  lemma PastEnd(fs: FS, j: nat, fb: nat)
    requires fb >= MAXBLOCKS
    ensures FileBlock(fs, j, fb) == ZeroBlock
  {
    hide DecodeInode, ToWords;
  }

  // ---------------------------------------------------------------- truncation

  const HIGHBLOCK := 142   // highest file block the indirect block can map

  /** Whether block fb of a file survives truncation to bl blocks. The indirect part
      compares with a strict <, so file block bl itself survives when it is indirect. */
  predicate Kept(bl: nat, fb: nat) {
    fb < bl || (fb == bl && fb >= 15)
  }

  function BlockLen(len: nat): nat { (len + 511) / 512 }

  /** In bytes: a direct block is kept when it begins below the new length, and an indirect one
      already when the block before it does. */
  lemma KeptIff(len: nat, fb: nat)
    ensures Kept(BlockLen(len), fb) <==> 512 * (if fb < 15 then fb else fb - 1) < len
  {
  }

  function CutDirect(d: seq<u32>, bl: nat): (r: seq<u32>)
    requires |d| == 15
    ensures |r| == 15 && forall k :: 0 <= k < 15 ==> r[k] == if Kept(bl, k) then d[k] else 0
  {
    seq(15, k requires 0 <= k < 15 => if k < bl then d[k] else 0)
  }

  function CutWords(w: Words, bl: nat): (r: Words)
    ensures forall j :: 0 <= j < 128 ==> r[j] == if Kept(bl, 15 + j) then w[j] else 0
  {
    seq(128, j requires 0 <= j < 128 => if bl < 15 + j then 0 else w[j])
  }

  /** Whether the indirect block is looked at by the truncation. */
  predicate CutsIndirect(x: Inode, bl: nat) { bl < HIGHBLOCK && x.indirect != 0 }

  /** The blocks truncation frees, as the code computes them. */
  function FreedBlocks(fs: FS, i: nat, bl: nat): set<nat>
    requires i in fs.vn && fs.vn[i].inode.indirect < |fs.disk|
  {
    var x := fs.vn[i].inode;
    CutBlocks(x.direct, 0, bl) +
    (if CutsIndirect(x, bl) then CutBlocks(ToWords(fs.disk[x.indirect]), 15, bl) else {}) +
    (if FreesIndirect(fs, x, bl) then {x.indirect as nat} else {})
  }

  /** Whether truncation leaves no entry in the indirect block, so that it goes too. */
  predicate FreesIndirect(fs: FS, x: Inode, bl: nat)
    requires x.indirect < |fs.disk|
  {
    CutsIndirect(x, bl) && CutWords(ToWords(fs.disk[x.indirect]), bl) == ZeroWords
  }

  /** The disk after the indirect block was written back, if it changed and stays. */
  function CutDisk(fs: FS, x: Inode, bl: nat): seq<Block>
    requires x.indirect < |fs.disk|
  {
    var w := ToWords(fs.disk[x.indirect]);
    if CutsIndirect(x, bl) && !FreesIndirect(fs, x, bl) && CutWords(w, bl) != w then
      fs.disk[x.indirect := FromWords(CutWords(w, bl))]
    else fs.disk
  }

  /** sfs_truncate */
  function Truncated(fs: FS, i: nat, len: u32): FS
    requires i in fs.vn && fs.vn[i].inode.indirect < |fs.disk|
  {
    var bl, x := BlockLen(len), fs.vn[i].inode;
    WithInode(fs.(used := fs.used - FreedBlocks(fs, i, bl), disk := CutDisk(fs, x, bl)), i,
              x.(direct := CutDirect(x.direct, bl), indirect := if FreesIndirect(fs, x, bl) then 0 else x.indirect,
                 size := len))
  }

  /** The block numbers in d, whose first entry is file block base, that truncation drops. */
  function CutBlocks(d: seq<u32>, base: nat, bl: nat): set<nat> {
    set k | 0 <= k < |d| && !Kept(bl, base + k) && d[k] != 0 :: d[k] as nat
  }

  /** The slots truncation clears. */
  predicate Cut(fs: FS, i: nat, bl: nat, s: Slot)
    requires i in fs.vn && fs.vn[i].inode.indirect < |fs.disk|
  {
    var x := fs.vn[i].inode;
    s.ino == i &&
    match s
    case InodeOf(_) => false
    case Direct(_, k) => !Kept(bl, k)
    case IndSlot(_, k) => !Kept(bl, 15 + k)
    case IndirectOf(_) => FreesIndirect(fs, x, bl)
  }

  lemma TruncatedRefs(fs: FS, o: Owners, i: nat, len: u32, s: Slot)
    requires Inv(fs, o) && i in fs.vn && fs.vn[i].inode.indirect < |fs.disk| && SlotOk(o, s)
    ensures Ref(Truncated(fs, i, len), s) == if Cut(fs, i, BlockLen(len), s) then 0 else Ref(fs, s)
  {
    hide DecodeInode, ToWords, FromWords, Owned, Clean, CutBlocks;
    var v := IndirectOf(i);
    if Ref(fs, v) != 0 { RefOwned(fs, o, v); }
    if s.IndSlot? {
      TruncatedIndRefs(fs, o, i, len, s);
    }
  }

  lemma TruncatedIndRefs(fs: FS, o: Owners, i: nat, len: u32, s: Slot)
    requires Inv(fs, o) && i in fs.vn && fs.vn[i].inode.indirect < |fs.disk| && SlotOk(o, s) && s.IndSlot?
    ensures Ref(Truncated(fs, i, len), s) == if Cut(fs, i, BlockLen(len), s) then 0 else Ref(fs, s)
  {
    hide DecodeInode, ToWords, FromWords, Owned, Clean, CutBlocks, CutDirect;
    var u, v := IndirectOf(s.ino), IndirectOf(i);
    if Ref(fs, u) != 0 { RefOwned(fs, o, u); }
    if Ref(fs, v) != 0 { RefOwned(fs, o, v); }
    var x, bl := fs.vn[i].inode, BlockLen(len);
    if CutsIndirect(x, bl) {
      WordsRoundTrip(CutWords(ToWords(fs.disk[x.indirect]), bl));
    }
  }

  /** They are exactly the blocks owned by a slot that is cleared. */
  lemma FreedBlocksOwned(fs: FS, o: Owners, i: nat, bl: nat)
    requires Inv(fs, o) && i in fs.vn && fs.vn[i].inode.indirect < |fs.disk|
    ensures FreedBlocks(fs, i, bl) == set c | c in o && Cut(fs, i, bl, o[c])
  {
    hide DecodeInode, ToWords, FromWords, Owned, Clean;
    forall c | c in FreedBlocks(fs, i, bl)
      ensures c in o && Cut(fs, i, bl, o[c])
    {
      FreedBlockIsCut(fs, o, i, bl, c);
    }
    forall c | c in o && Cut(fs, i, bl, o[c])
      ensures c in FreedBlocks(fs, i, bl)
    {
      CutIsFreedBlock(fs, o, i, bl, c);
    }
  }

  lemma FreedBlockIsCut(fs: FS, o: Owners, i: nat, bl: nat, c: nat)
    requires Inv(fs, o) && i in fs.vn && fs.vn[i].inode.indirect < |fs.disk|
    requires c in FreedBlocks(fs, i, bl)
    ensures c in o && Cut(fs, i, bl, o[c])
  {
    hide DecodeInode, ToWords, FromWords, Owned, Clean;
    var x := fs.vn[i].inode;
    if c in CutBlocks(x.direct, 0, bl) {
      var k :| 0 <= k < 15 && !Kept(bl, 0 + k) && x.direct[k] == c && c != 0;
      RefOwned(fs, o, Direct(i, k));
    } else {
      var w := ToWords(fs.disk[x.indirect]);
      if c in CutBlocks(w, 15, bl) {
        var k :| 0 <= k < 128 && !Kept(bl, 15 + k) && w[k] == c && c != 0;
        RefOwned(fs, o, IndSlot(i, k));
      } else {
        RefOwned(fs, o, IndirectOf(i));
      }
    }
  }

  lemma CutIsFreedBlock(fs: FS, o: Owners, i: nat, bl: nat, c: nat)
    requires Inv(fs, o) && i in fs.vn && fs.vn[i].inode.indirect < |fs.disk|
    requires c in o && Cut(fs, i, bl, o[c])
    ensures c in FreedBlocks(fs, i, bl)
  {
    hide DecodeInode, ToWords, FromWords, Owned, Clean, CutWords;
    OwnedAt(fs, o, c);
    OwnedNotZero(fs, o, c);
    var x := fs.vn[i].inode;
    match o[c]
    case Direct(_, k) =>
      assert 0 <= k < 15 && !Kept(bl, 0 + k) && x.direct[k] == c;
    case IndSlot(_, k) =>
      assert CutsIndirect(x, bl);
      var w := ToWords(fs.disk[x.indirect]);
      assert 0 <= k < 128 && !Kept(bl, 15 + k) && w[k] == c;
    case IndirectOf(_) =>
  }

  lemma OwnedNotZero(fs: FS, o: Owners, c: nat)
    requires Owned(fs, o) && c in o
    ensures c != 0
  {
    hide Ref;
    UnusedNotZero(Refs(fs), |fs.disk|, fs.used, o, c);
  }

  function CutOwners(fs: FS, o: Owners, i: nat, bl: nat): Owners
    requires i in fs.vn && fs.vn[i].inode.indirect < |fs.disk|
  {
    map c | c in o && !Cut(fs, i, bl, o[c]) :: o[c]
  }

  lemma TruncatedOwned(fs: FS, o: Owners, i: nat, len: u32)
    requires Inv(fs, o) && i in fs.vn && fs.vn[i].inode.indirect < |fs.disk|
    ensures Owned(Truncated(fs, i, len), CutOwners(fs, o, i, BlockLen(len)))
  {
    hide DecodeInode, ToWords, FromWords, Owns, Cur, Clean, Ref, CutBlocks, CutWords, CutDirect;
    var bl, fs' := BlockLen(len), Truncated(fs, i, len);
    var d := (s: Slot) => Cut(fs, i, bl, s);
    FreedBlocksOwned(fs, o, i, bl);
    var o' := CutOwners(fs, o, i, bl);
    assert fs'.used == fs.used - FreedBlocks(fs, i, bl);
    assert o' == map c | c in o && !d(o[c]) :: o[c];
    assert (set c | c in o && d(o[c])) == (set c | c in o && Cut(fs, i, bl, o[c]));
    forall s | SlotOk(o', s)
      ensures Refs(fs')(s) == if d(s) then 0 else Refs(fs)(s)
    {
      TruncatedRefs(fs, o, i, len, s);
    }
    DropRefs(Refs(fs), |fs.disk|, fs.used, o, Refs(fs'), fs'.used, o', d);
  }

  lemma TruncatedVnodes(fs: FS, o: Owners, i: nat, len: u32)
    requires Inv(fs, o) && i in fs.vn && fs.vn[i].inode.indirect < |fs.disk|
    ensures Clean(Truncated(fs, i, len)) && Truncated(fs, i, len).vn.Keys == fs.vn.Keys
    ensures forall j :: j in fs.vn ==> Truncated(fs, i, len).vn[j].refs == fs.vn[j].refs
    ensures |Truncated(fs, i, len).disk| == |fs.disk|
    ensures forall j :: IsInode(o, j) && j != i ==> Cur(Truncated(fs, i, len), j) == Cur(fs, j)
    ensures var x, x' := Cur(fs, i), Cur(Truncated(fs, i, len), i);
            x'.size == len && x'.itype == x.itype && x'.linkcount == x.linkcount
  {
    hide DecodeInode, ToWords, FromWords, Owned, CutBlocks, CutWords, CutDirect;
    var v := IndirectOf(i);
    if Ref(fs, v) != 0 { RefOwned(fs, o, v); }
  }

  /** Truncation keeps ownership exact: every dropped block is freed once, nothing else is. */
  lemma TruncatedInv(fs: FS, o: Owners, i: nat, len: u32)
    requires Inv(fs, o) && i in fs.vn && fs.vn[i].inode.indirect < |fs.disk|
    ensures Inv(Truncated(fs, i, len), CutOwners(fs, o, i, BlockLen(len)))
    ensures SameInodes(o, CutOwners(fs, o, i, BlockLen(len)))
  {
    hide DecodeInode, Owned, Clean, Truncated;
    TruncatedOwned(fs, o, i, len);
    TruncatedVnodes(fs, o, i, len);
  }

  /** What each slot of the truncated file holds afterwards. */
  lemma TruncatedSlots(fs: FS, o: Owners, i: nat, len: u32)
    requires Inv(fs, o) && i in fs.vn && fs.vn[i].inode.indirect < |fs.disk|
    ensures var fs' := Truncated(fs, i, len);
            && (forall k :: 0 <= k < 15 ==>
                  Ref(fs', Direct(i, k)) == if 512 * k < len then Ref(fs, Direct(i, k)) else 0)
            && (forall j :: 0 <= j < 128 ==>
                  Ref(fs', IndSlot(i, j)) == if 512 * (14 + j) < len then Ref(fs, IndSlot(i, j)) else 0)
            && Ref(fs', IndirectOf(i)) == if LosesIndirect(fs, i, len) then 0 else Ref(fs, IndirectOf(i))
  {
    hide Truncated, Ref, Owned, Clean;
    var fs' := Truncated(fs, i, len);
    forall k | 0 <= k < 15
      ensures Ref(fs', Direct(i, k)) == if 512 * k < len then Ref(fs, Direct(i, k)) else 0
    {
      TruncatedRefs(fs, o, i, len, Direct(i, k));
      KeptIff(len, k);
    }
    forall j | 0 <= j < 128
      ensures Ref(fs', IndSlot(i, j)) == if 512 * (14 + j) < len then Ref(fs, IndSlot(i, j)) else 0
    {
      TruncatedRefs(fs, o, i, len, IndSlot(i, j));
      KeptIff(len, 15 + j);
    }
    TruncatedRefs(fs, o, i, len, IndirectOf(i));
    LosesIff(fs, i, len);
  }

  /** The file has an indirect block, some slot of it may be past the new end, and every slot that
      is not is empty. */
  ghost predicate LosesIndirect(fs: FS, i: nat, len: nat) {
    && Ref(fs, IndirectOf(i)) != 0 && len <= 512 * 141
    && forall j :: 0 <= j < 128 && 512 * (14 + j) < len ==> Ref(fs, IndSlot(i, j)) == 0
  }

  lemma LosesIff(fs: FS, i: nat, len: nat)
    requires i in fs.vn && fs.vn[i].inode.indirect < |fs.disk|
    ensures LosesIndirect(fs, i, len) <==> FreesIndirect(fs, fs.vn[i].inode, BlockLen(len))
  {
    hide ToWords, Kept;
    var x, bl := fs.vn[i].inode, BlockLen(len);
    if x.indirect != 0 {
      var w := ToWords(fs.disk[x.indirect]);
      forall j | 0 <= j < 128
        ensures Ref(fs, IndSlot(i, j)) == w[j] && CutWords(w, bl)[j] == if 512 * (14 + j) < len then w[j] else 0
      {
        KeptIff(len, 15 + j);
      }
      if LosesIndirect(fs, i, len) {
        assert CutWords(w, bl) == ZeroWords;
      }
    }
  }

  /** Block b is held by a slot of file i that truncation to len clears. */
  ghost predicate Loses(fs: FS, i: nat, len: nat, b: nat) {
    && b != 0
    && (|| (exists k :: 0 <= k < 15 && 512 * k >= len && b == Ref(fs, Direct(i, k)))
        || (exists j :: 0 <= j < 128 && 512 * (14 + j) >= len && b == Ref(fs, IndSlot(i, j)))
        || (b == Ref(fs, IndirectOf(i)) && LosesIndirect(fs, i, len)))
  }

  /** The free map loses exactly the blocks of the slots that are cleared. */
  lemma TruncatedUsed(fs: FS, o: Owners, i: nat, len: u32, b: nat)
    requires Inv(fs, o) && i in fs.vn && fs.vn[i].inode.indirect < |fs.disk|
    ensures b in Truncated(fs, i, len).used <==> b in fs.used && !Loses(fs, i, len, b)
  {
    hide Owned, Clean, Loses, FreedBlocks, CutDisk, CutDirect;
    FreedLost(fs, o, i, len, b);
  }

  lemma FreedLost(fs: FS, o: Owners, i: nat, len: u32, b: nat)
    requires Inv(fs, o) && i in fs.vn && fs.vn[i].inode.indirect < |fs.disk|
    ensures b in FreedBlocks(fs, i, BlockLen(len)) <==> Loses(fs, i, len, b)
  {
    hide DecodeInode, ToWords, FromWords, Owned, Clean, FreedBlocks, Ref, BlockLen, Kept, FreesIndirect, LosesIndirect;
    var bl := BlockLen(len);
    LosesIff(fs, i, len);
    FreedBlocksOwned(fs, o, i, bl);
    if b in FreedBlocks(fs, i, bl) {
      OwnedAt(fs, o, b);
      OwnedNotZero(fs, o, b);
      match o[b]
      case Direct(_, k) => KeptIff(len, k);
      case IndSlot(_, k) => KeptIff(len, 15 + k);
      case IndirectOf(_) =>
    }
    if Loses(fs, i, len, b) {
      var s := LostSlot(fs, o, i, len, b);
      RefOwned(fs, o, s);
    }
  }

  lemma LostSlot(fs: FS, o: Owners, i: nat, len: u32, b: nat) returns (s: Slot)
    requires Inv(fs, o) && i in fs.vn && fs.vn[i].inode.indirect < |fs.disk| && Loses(fs, i, len, b)
    ensures SlotOk(o, s) && Cut(fs, i, BlockLen(len), s) && Ref(fs, s) == b != 0
  {
    hide DecodeInode, ToWords, FromWords, Owned, Clean, Ref, BlockLen, Kept, FreesIndirect, LosesIndirect;
    LosesIff(fs, i, len);
    if k :| 0 <= k < 15 && 512 * k >= len && b == Ref(fs, Direct(i, k)) {
      KeptIff(len, k);
      s := Direct(i, k);
    } else if j :| 0 <= j < 128 && 512 * (14 + j) >= len && b == Ref(fs, IndSlot(i, j)) {
      KeptIff(len, 15 + j);
      s := IndSlot(i, j);
    } else {
      s := IndirectOf(i);
    }
  }

  /** Every file keeps every block, except that file i loses those past the new end. */
  lemma TruncatedBlock(fs: FS, o: Owners, i: nat, len: u32, j: nat, fb: nat)
    requires Inv(fs, o) && i in fs.vn && fs.vn[i].inode.indirect < |fs.disk| && IsInode(o, j)
    ensures FileBlock(Truncated(fs, i, len), j, fb) ==
            if j == i && !Kept(BlockLen(len), fb) then ZeroBlock else FileBlock(fs, j, fb)
  {
    hide DecodeInode, ToWords, FromWords, Owned, Clean, CutBlocks, CutWords, CutDirect, Ref;
    var s := DataSlot(j, fb);
    if fb < MAXBLOCKS {
      TruncatedRefs(fs, o, i, len, s);
      if Ref(fs, s) != 0 {
        RefOwned(fs, o, s);
        TruncatedDisk(fs, o, i, len, Ref(fs, s));
      }
    } else {
      PastEnd(fs, j, fb);
      PastEnd(Truncated(fs, i, len), j, fb);
    }
  }

  lemma TruncatedDisk(fs: FS, o: Owners, i: nat, len: u32, b: nat)
    requires Inv(fs, o) && i in fs.vn && fs.vn[i].inode.indirect < |fs.disk|
    requires b in o ==> !o[b].IndirectOf?
    ensures b in o ==> BlockAt(Truncated(fs, i, len), b) == BlockAt(fs, b)
  {
    hide DecodeInode, ToWords, FromWords, Owned, Clean, CutBlocks, CutWords, CutDirect;
    var v := IndirectOf(i);
    if Ref(fs, v) != 0 { RefOwned(fs, o, v); }
  }

  // ---------------------------------------------------------------- the loops of truncation

  lemma CutBlocksStep(d: seq<u32>, base: nat, bl: nat, k: nat)
    requires k < |d|
    ensures CutBlocks(d[..k + 1], base, bl) ==
            CutBlocks(d[..k], base, bl) + if !Kept(bl, base + k) && d[k] != 0 then {d[k] as nat} else {}
  {
    var e, e' := d[..k], d[..k + 1];
    forall c | c in CutBlocks(e', base, bl)
      ensures c in CutBlocks(e, base, bl) || (!Kept(bl, base + k) && d[k] == c && c != 0)
    {
      var q :| 0 <= q < |e'| && !Kept(bl, base + q) && e'[q] != 0 && e'[q] == c;
      if q < k {
        assert e[q] == c && !Kept(bl, base + q);
      }
    }
    forall c | c in CutBlocks(e, base, bl)
      ensures c in CutBlocks(e', base, bl)
    {
      var q :| 0 <= q < |e| && !Kept(bl, base + q) && e[q] != 0 && e[q] == c;
      assert e'[q] == c && !Kept(bl, base + q);
    }
    if !Kept(bl, base + k) && d[k] != 0 {
      assert e'[k] == d[k];
    }
  }

  /** Direct blocks freed so far belong to earlier slots, so the next one still has its bit. */
  lemma DirectStillUsed(fs: FS, o: Owners, i: nat, bl: nat, k: nat)
    requires Inv(fs, o) && i in fs.vn && k < 15 && fs.vn[i].inode.direct[k] != 0
    ensures fs.vn[i].inode.direct[k] in fs.used - CutBlocks(fs.vn[i].inode.direct[..k], 0, bl)
  {
    hide DecodeInode, ToWords, Owned, Clean;
    var d := fs.vn[i].inode.direct;
    RefOwned(fs, o, Direct(i, k));
    if d[k] in CutBlocks(d[..k], 0, bl) {
      var q :| 0 <= q < k && d[..k][q] == d[k];
      RefOwned(fs, o, Direct(i, q));
      assert false;
    }
  }

  /** The same for a slot of the indirect block, after all direct blocks were dealt with. */
  lemma IndStillUsed(fs: FS, o: Owners, i: nat, bl: nat, k: nat)
    requires Inv(fs, o) && i in fs.vn && 0 < fs.vn[i].inode.indirect < |fs.disk| && k < 128
    requires ToWords(fs.disk[fs.vn[i].inode.indirect])[k] != 0
    ensures var x := fs.vn[i].inode;
            var w := ToWords(fs.disk[x.indirect]);
            w[k] in fs.used - CutBlocks(x.direct, 0, bl) - CutBlocks(w[..k], 15, bl)
  {
    hide DecodeInode, ToWords, Owned, Clean;
    var x := fs.vn[i].inode;
    var w := ToWords(fs.disk[x.indirect]);
    RefOwned(fs, o, IndSlot(i, k));
    if w[k] in CutBlocks(w[..k], 15, bl) {
      var q :| 0 <= q < k && w[..k][q] == w[k];
      RefOwned(fs, o, IndSlot(i, q));
      assert false;
    }
    if w[k] in CutBlocks(x.direct, 0, bl) {
      var q :| 0 <= q < 15 && x.direct[q] == w[k];
      RefOwned(fs, o, Direct(i, q));
      assert false;
    }
  }

  /** And for the indirect block itself, after all of its slots. */
  lemma IndirectStillUsed(fs: FS, o: Owners, i: nat, bl: nat)
    requires Inv(fs, o) && i in fs.vn && 0 < fs.vn[i].inode.indirect < |fs.disk|
    ensures var x := fs.vn[i].inode;
            var w := ToWords(fs.disk[x.indirect]);
            x.indirect in fs.used - CutBlocks(x.direct, 0, bl) - CutBlocks(w, 15, bl)
  {
    hide DecodeInode, ToWords, Owned, Clean;
    var x := fs.vn[i].inode;
    var w := ToWords(fs.disk[x.indirect]);
    RefOwned(fs, o, IndirectOf(i));
    if x.indirect in CutBlocks(w, 15, bl) {
      var q :| 0 <= q < 128 && w[q] == x.indirect;
      RefOwned(fs, o, IndSlot(i, q));
      assert false;
    }
    if x.indirect in CutBlocks(x.direct, 0, bl) {
      var q :| 0 <= q < 15 && x.direct[q] == x.indirect;
      RefOwned(fs, o, Direct(i, q));
      assert false;
    }
  }
}
