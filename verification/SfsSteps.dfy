/** The other elementary changes of a volume: writing a data block, updating inode fields,
    loading, syncing and dropping vnodes, creating and freeing inodes. Each keeps block
    ownership, and each says which files change. */
module SfsSteps {
  import opened Codec
  import opened SfsModel

  predicate SamePointers(a: Inode, b: Inode) {
    a.direct == b.direct && a.indirect == b.indirect
  }

  ghost predicate VnodesOk(fs: FS, o: Owners) {
    && (forall i :: i in fs.vn ==> IsInode(o, i) && fs.vn[i].refs > 0)
    && Clean(fs)
  }

  /** fs' has the same block pointers as fs and the same contents in every block that is
      not an inode. */
  ghost predicate PointersKept(fs: FS, o: Owners, fs': FS) {
    && |fs'.disk| == |fs.disk| && fs'.used == fs.used
    && (forall i :: IsInode(o, i) ==> SamePointers(Cur(fs, i), Cur(fs', i)))
    && (forall c :: c in o && !o[c].InodeOf? ==> BlockAt(fs', c) == BlockAt(fs, c))
  }

  lemma PointersKeptRef(fs: FS, o: Owners, fs': FS, s: Slot)
    requires Owned(fs, o) && PointersKept(fs, o, fs') && SlotOk(o, s)
    ensures Ref(fs', s) == Ref(fs, s)
  {
    hide DecodeInode, ToWords, FromWords, Owned, Cur, BlockAt;
    var u := IndirectOf(s.ino);
    if Ref(fs, u) != 0 { RefOwned(fs, o, u); }
  }

  lemma PointersKeptBlock(fs: FS, o: Owners, fs': FS, i: nat, fb: nat)
    requires Owned(fs, o) && PointersKept(fs, o, fs') && IsInode(o, i)
    ensures FileBlock(fs', i, fb) == FileBlock(fs, i, fb)
  {
    hide DecodeInode, ToWords, FromWords, Owned, Cur, BlockAt;
    var s := DataSlot(i, fb);
    if fb < MAXBLOCKS {
      PointersKeptRef(fs, o, fs', s);
      if Ref(fs, s) != 0 { RefOwned(fs, o, s); }
    }
  }

  lemma OwnedSameRefs(fs: FS, o: Owners, fs': FS)
    requires Owned(fs, o) && |fs'.disk| == |fs.disk| && fs'.used == fs.used
    requires forall s :: SlotOk(o, s) ==> Ref(fs', s) == Ref(fs, s)
    ensures Owned(fs', o)
  {
    hide Ref, SlotOk, IsReserved, Reserved;
    assert forall s :: SlotOk(o, s) ==> Refs(fs')(s) == Refs(fs)(s);
  }

  /** Ownership and every file's blocks survive when only inode fields move. */
  lemma KeepPointers(fs: FS, o: Owners, fs': FS)
    requires Inv(fs, o) && PointersKept(fs, o, fs') && VnodesOk(fs', o)
    ensures Inv(fs', o)
    ensures forall i :: IsInode(o, i) ==> SameBlocks(fs, fs', i)
  {
    hide DecodeInode, Owned, Cur, BlockAt, Ref, Clean, SlotOk, PointersKept, FileBlock;
    forall s | SlotOk(o, s)
      ensures Ref(fs', s) == Ref(fs, s)
    {
      PointersKeptRef(fs, o, fs', s);
    }
    assert |fs'.disk| == |fs.disk| && fs'.used == fs.used by { KeptSizes(fs, o, fs'); }
    OwnedSameRefs(fs, o, fs');
    forall i, fb | IsInode(o, i)
      ensures FileBlock(fs', i, fb) == FileBlock(fs, i, fb)
    {
      PointersKeptBlock(fs, o, fs', i, fb);
    }
  }

  lemma KeptSizes(fs: FS, o: Owners, fs': FS)
    requires PointersKept(fs, o, fs')
    ensures |fs'.disk| == |fs.disk| && fs'.used == fs.used
  {
  }

  // ---------------------------------------------------------------- writing file data

  function WriteBlock(fs: FS, b: nat, blk: Block): FS
    requires b < |fs.disk|
  {
    fs.(disk := fs.disk[b := blk])
  }

  lemma WriteDataRef(fs: FS, o: Owners, b: nat, blk: Block, s: Slot)
    requires Inv(fs, o) && b in o && (o[b].Direct? || o[b].IndSlot?) && SlotOk(o, s)
    requires b < |fs.disk|
    ensures Ref(WriteBlock(fs, b, blk), s) == Ref(fs, s)
  {
    hide DecodeInode, ToWords, FromWords, Owned, Clean;
    var u := IndirectOf(s.ino);
    if Ref(fs, u) != 0 { RefOwned(fs, o, u); }
  }

  lemma WriteDataClean(fs: FS, o: Owners, b: nat, blk: Block)
    requires Inv(fs, o) && b in o && (o[b].Direct? || o[b].IndSlot?)
    requires b < |fs.disk|
    ensures VnodesOk(WriteBlock(fs, b, blk), o)
    ensures forall i :: IsInode(o, i) ==> Cur(WriteBlock(fs, b, blk), i) == Cur(fs, i)
  {
    hide DecodeInode, Owned;
  }

  /** Writing block b, which is block fb of file i, changes that block of that file only. */
  lemma WriteData(fs: FS, o: Owners, i: nat, fb: nat, b: nat, blk: Block)
    requires Inv(fs, o) && IsInode(o, i) && fb < MAXBLOCKS
    requires b != 0 && b == Ref(fs, DataSlot(i, fb)) && b < |fs.disk|
    ensures Inv(WriteBlock(fs, b, blk), o)
    ensures FileBlock(WriteBlock(fs, b, blk), i, fb) == blk
    ensures forall j, g :: IsInode(o, j) && (j != i || g != fb) ==>
              FileBlock(WriteBlock(fs, b, blk), j, g) == FileBlock(fs, j, g)
    ensures forall j :: IsInode(o, j) ==> Cur(WriteBlock(fs, b, blk), j) == Cur(fs, j)
  {
    hide DecodeInode, Owned, Cur, Ref, Clean, FileBlock;
    var fs' := WriteBlock(fs, b, blk);
    RefOwned(fs, o, DataSlot(i, fb));
    forall s | SlotOk(o, s)
      ensures Ref(fs', s) == Ref(fs, s)
    {
      WriteDataRef(fs, o, b, blk, s);
    }
    OwnedSameRefs(fs, o, fs');
    WriteDataClean(fs, o, b, blk);
    forall j, g | IsInode(o, j)
      ensures FileBlock(fs', j, g) == if j == i && g == fb then blk else FileBlock(fs, j, g)
    {
      WriteDataBlock(fs, o, i, fb, b, blk, j, g);
    }
  }

  lemma WriteDataBlock(fs: FS, o: Owners, i: nat, fb: nat, b: nat, blk: Block, j: nat, g: nat)
    requires Inv(fs, o) && IsInode(o, i) && fb < MAXBLOCKS && IsInode(o, j)
    requires b != 0 && b == Ref(fs, DataSlot(i, fb)) && b < |fs.disk|
    ensures FileBlock(WriteBlock(fs, b, blk), j, g) == if j == i && g == fb then blk else FileBlock(fs, j, g)
  {
    hide DecodeInode, Owned, Cur, Clean, ToWords;
    var s := DataSlot(j, g);
    RefOwned(fs, o, DataSlot(i, fb));
    if g < MAXBLOCKS {
      WriteDataRef(fs, o, b, blk, s);
      if Ref(fs, s) != 0 { RefOwned(fs, o, s); }
    }
  }

  // ---------------------------------------------------------------- inode fields

  /** Changing fields other than the block pointers of a loaded inode. */
  lemma SetFields(fs: FS, o: Owners, i: nat, x: Inode)
    requires Inv(fs, o) && i in fs.vn && SamePointers(fs.vn[i].inode, x)
    ensures Inv(WithInode(fs, i, x), o)
    ensures Cur(WithInode(fs, i, x), i) == x
    ensures forall j :: IsInode(o, j) && j != i ==> Cur(WithInode(fs, i, x), j) == Cur(fs, j)
    ensures forall j :: IsInode(o, j) ==> SameBlocks(fs, WithInode(fs, i, x), j)
  {
    hide DecodeInode, Owned, Ref;
    KeepPointers(fs, o, WithInode(fs, i, x));
  }

  // ---------------------------------------------------------------- vnodes

  /** fs' presents the same inodes and the same non-inode blocks: only the vnode table, the
      dirty flags or the on-disk copies of inodes differ. */
  ghost predicate SameInodeView(fs: FS, o: Owners, fs': FS) {
    && |fs'.disk| == |fs.disk| && fs'.used == fs.used
    && (forall i :: IsInode(o, i) ==> Cur(fs', i) == Cur(fs, i))
    && (forall c :: c in o && !o[c].InodeOf? ==> BlockAt(fs', c) == BlockAt(fs, c))
  }

  lemma KeepView(fs: FS, o: Owners, fs': FS)
    requires Inv(fs, o) && SameInodeView(fs, o, fs') && VnodesOk(fs', o)
    ensures Inv(fs', o) && SameFiles(fs, fs', o)
  {
    hide DecodeInode, Owned, Ref, Clean, Cur, BlockAt, FileBlock;
    KeepPointers(fs, o, fs');
  }

  /** sfs_sync_inode */
  function Synced(fs: FS, i: nat): FS
    requires i in fs.vn && i < |fs.disk|
  {
    if fs.vn[i].dirty then
      fs.(disk := fs.disk[i := EncodeInode(fs.vn[i].inode)], vn := fs.vn[i := fs.vn[i].(dirty := false)])
    else fs
  }

  lemma SyncedInv(fs: FS, o: Owners, i: nat)
    requires Inv(fs, o) && i in fs.vn && i < |fs.disk|
    ensures Inv(Synced(fs, i), o) && SameFiles(fs, Synced(fs, i), o)
    ensures forall j :: IsInode(o, j) ==> Cur(Synced(fs, i), j) == Cur(fs, j)
    ensures DecodeInode(Synced(fs, i).disk[i]) == fs.vn[i].inode
  {
    hide DecodeInode, Owned, Ref, EncodeInode, FileBlock;
    InodeRoundTrip(fs.vn[i].inode);
    KeepView(fs, o, Synced(fs, i));
  }

  /** sfs_loadvnode of an inode that is not in the table */
  function Loaded(fs: FS, i: nat): FS {
    fs.(vn := fs.vn[i := Vnode(DecodeInode(BlockAt(fs, i)), false, 1)])
  }

  function WithRefs(fs: FS, i: nat, n: nat): FS
    requires i in fs.vn
  {
    fs.(vn := fs.vn[i := fs.vn[i].(refs := n)])
  }

  lemma LoadedInv(fs: FS, o: Owners, i: nat)
    requires Inv(fs, o) && i !in fs.vn && IsInode(o, i)
    ensures Inv(Loaded(fs, i), o) && SameFiles(fs, Loaded(fs, i), o)
    ensures forall j :: Cur(Loaded(fs, i), j) == Cur(fs, j)
  {
    hide DecodeInode, Owned, Ref, FileBlock;
    KeepView(fs, o, Loaded(fs, i));
  }

  lemma WithRefsInv(fs: FS, o: Owners, i: nat, n: nat)
    requires Inv(fs, o) && i in fs.vn && n > 0
    ensures Inv(WithRefs(fs, i, n), o) && SameFiles(fs, WithRefs(fs, i, n), o)
    ensures forall j :: Cur(WithRefs(fs, i, n), j) == Cur(fs, j)
  {
    hide DecodeInode, Owned, Ref, FileBlock;
    KeepView(fs, o, WithRefs(fs, i, n));
  }

  /** Dropping a clean vnode: the disk copy takes over. */
  lemma DroppedInv(fs: FS, o: Owners, i: nat)
    requires Inv(fs, o) && i in fs.vn && !fs.vn[i].dirty
    ensures Inv(fs.(vn := fs.vn - {i}), o) && SameFiles(fs, fs.(vn := fs.vn - {i}), o)
    ensures forall j :: Cur(fs.(vn := fs.vn - {i}), j) == Cur(fs, j)
  {
    hide DecodeInode, Owned, Ref, FileBlock;
    KeepView(fs, o, fs.(vn := fs.vn - {i}));
  }

  // ---------------------------------------------------------------- the free map on disk

  function ToByte(w: bv8): byte { w as int }
  function ToWord(x: byte): bv8 { x as bv8 }

  lemma ByteWord(w: bv8)
    ensures ToWord(ToByte(w)) == w
  {
  }

  /** The free map as stored in the blocks after the root inode. */
  function DiskMap(disk: seq<Block>): (v: seq<bv8>)
    requires MAPLOC + BitBlocks(|disk|) <= |disk|
    ensures |v| == 512 * BitBlocks(|disk|)
  {
    seq(512 * BitBlocks(|disk|), q requires 0 <= q < 512 * BitBlocks(|disk|) => ToWord(disk[MAPLOC + q / 512][q % 512]))
  }

  lemma MapBytes(n: nat)
    ensures (BitmapSize(n) + 7) / 8 == 512 * BitBlocks(n) && 8 * (512 * BitBlocks(n)) == BitmapSize(n)
  {
  }

  lemma MapNotOwned(fs: FS, o: Owners, b: nat)
    requires Inv(fs, o) && b in o
    ensures b < |fs.disk| && !(MAPLOC <= b < MAPLOC + BitBlocks(|fs.disk|))
  {
    hide Ref, Clean;
    MapBytes(|fs.disk|);
  }

  lemma SameMap(disk: seq<Block>, disk': seq<Block>)
    requires |disk| == |disk'| && MAPLOC + BitBlocks(|disk|) <= |disk|
    requires forall b :: MAPLOC <= b < MAPLOC + BitBlocks(|disk|) ==> disk'[b] == disk[b]
    ensures DiskMap(disk') == DiskMap(disk)
  {
    hide ToWord, BitBlocks;
  }

  /** Unless it is marked dirty, the free map in memory is the one on disk. */
  ghost predicate MapSaved(disk: seq<Block>, v: seq<bv8>, dirty: bool) {
    dirty || (MAPLOC + BitBlocks(|disk|) <= |disk| && DiskMap(disk) == v)
  }

  /** Writing a block of an inode or a file leaves the stored free map alone. */
  lemma SavedWrite(fs: FS, o: Owners, v: seq<bv8>, dirty: bool, b: nat, blk: Block)
    requires Inv(fs, o) && b in o && b < |fs.disk| && MapSaved(fs.disk, v, dirty)
    ensures MapSaved(fs.disk[b := blk], v, dirty)
  {
    hide Inv, BitBlocks, DiskMap;
    MapNotOwned(fs, o, b);
    if !dirty {
      SameMap(fs.disk, fs.disk[b := blk]);
    }
  }
}
