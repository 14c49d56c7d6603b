/** sbin/mksfs/mksfs.c and the mount code of kern/fs/sfs/sfs_fs.c: a fresh volume. */
module Mksfs {
  import opened Codec
  import opened SfsModel
  import opened SfsSteps
  import opened SfsTruncate
  import opened SfsBytes
  import opened SfsEntries
  import opened SfsVolume
  import opened SfsDirectory
  import opened Uio
  import B = Bitmap

  /** What a consistency check of the free map finds: a bit is set exactly when its block is
      reserved, lies past the end of the disk, or is held by exactly one slot of one inode. */
  lemma FsckReport(fs: FS, o: Owners, b: nat)
    requires Inv(fs, o) && b < (|fs.disk| + 4095) / 4096 * 4096
    ensures b in fs.used <==>
            || b == 0 || 2 <= b < 2 + (|fs.disk| + 4095) / 4096 || |fs.disk| <= b
            || exists s :: SlotOk(o, s) && Ref(fs, s) == b && b != 0
    ensures forall s, t :: SlotOk(o, s) && SlotOk(o, t) && Ref(fs, s) == b == Ref(fs, t) && b != 0 ==> s == t
    ensures 2 <= b < 2 + (|fs.disk| + 4095) / 4096 || |fs.disk| <= b ==> forall s :: SlotOk(o, s) ==> Ref(fs, s) != b
  {
    hide Cur, DecodeInode, ToWords, SlotOk, Clean, Ref;
    forall s | SlotOk(o, s) && Ref(fs, s) == b && b != 0
      ensures b in o && o[b] == s
    {
      RefOwned(fs, o, s);
    }
    if b in o {
      assert Refs(fs)(o[b]) == Ref(fs, o[b]);
      assert b != 0 by { assert !IsReserved(|fs.disk|, b); }
    }
  }

  // ---------------------------------------------------------------- the free map on disk

  /** Block j of the map, cut out of the map in memory. */
  function MapBlock(v: seq<bv8>, j: nat): Block
    requires 512 * j + 512 <= |v|
  {
    var s := seq<byte>(512, k requires 0 <= k < 512 => ToByte(v[512 * j + k]));
    assert |s| == 512;
    s
  }

  /** disk holds the first j blocks of map v. */
  ghost predicate MapStored(disk: seq<Block>, v: seq<bv8>, j: nat)
    requires MAPLOC + j <= |disk| && 512 * j <= |v|
  {
    forall i :: 0 <= i < j ==> disk[MAPLOC + i] == MapBlock(v, i)
  }

  lemma StoredMap(disk: seq<Block>, v: seq<bv8>)
    requires MAPLOC + BitBlocks(|disk|) <= |disk| && |v| == 512 * BitBlocks(|disk|)
    requires MapStored(disk, v, BitBlocks(|disk|))
    ensures DiskMap(disk) == v
  {
    hide ToByte, ToWord, BitBlocks;
    forall q | 0 <= q < |v|
      ensures DiskMap(disk)[q] == v[q]
    {
      var i, k := q / 512, q % 512;
      assert q == 512 * i + k && 0 <= i < BitBlocks(|disk|);
      assert disk[MAPLOC + i] == MapBlock(v, i);
      ByteWord(v[q]);
    }
  }

  /** sfs_mapio with UIO_WRITE: the free map goes to its blocks, nothing else changes. */
  method WriteMap(disk: seq<Block>, v: array<bv8>) returns (disk': seq<Block>)
    requires MAPLOC + BitBlocks(|disk|) <= |disk| && v.Length == 512 * BitBlocks(|disk|)
    ensures |disk'| == |disk| && DiskMap(disk') == v[..]
    ensures forall b :: 0 <= b < |disk| && !(MAPLOC <= b < MAPLOC + BitBlocks(|disk|)) ==> disk'[b] == disk[b]
  {
    hide ToByte, ToWord, BitBlocks, MapBlock;
    disk' := disk;
    var mapsize := BitBlocks(|disk|);
    for j := 0 to mapsize
      invariant |disk'| == |disk| && MapStored(disk', v[..], j)
      invariant forall b :: 0 <= b < |disk| && !(MAPLOC <= b < MAPLOC + mapsize) ==> disk'[b] == disk[b]
    {
      disk' := disk'[MAPLOC + j := MapBlock(v[..], j)];
    }
    StoredMap(disk', v[..]);
  }

  /** sfs_mapio with UIO_READ */
  method ReadMap(disk: seq<Block>, v: array<bv8>)
    requires MAPLOC + BitBlocks(|disk|) <= |disk| && v.Length == 512 * BitBlocks(|disk|)
    modifies v
    ensures v[..] == DiskMap(disk)
  {
    hide ToWord, BitBlocks;
    var mapsize := BitBlocks(|disk|);
    for j := 0 to mapsize
      invariant v[..512 * j] == DiskMap(disk)[..512 * j]
    {
      forall k | 0 <= k < 512 {
        v[512 * j + k] := ToWord(disk[MAPLOC + j][k]);
      }
      assert forall q :: 512 * j <= q < 512 * j + 512 ==> v[q] == DiskMap(disk)[q] by {
        forall q | 512 * j <= q < 512 * j + 512 ensures v[q] == DiskMap(disk)[q] {
          assert v[512 * j + (q - 512 * j)] == ToWord(disk[MAPLOC + j][q - 512 * j]);
        }
      }
    }
    assert v[..] == v[..512 * mapsize];
  }

  // ---------------------------------------------------------------- sync and mount

  /** A disk that needs no memory: the stored map and the stored inodes are consistent. */
  ghost predicate Mountable(disk: seq<Block>, o: Owners) {
    && MAPLOC + BitBlocks(|disk|) <= |disk|
    && Inv(FS(disk, B.BitsOf(DiskMap(disk), BitmapSize(|disk|)), map[]), o)
  }

  /** What the volume on a disk looks like right after mounting. */
  ghost function Mounted(disk: seq<Block>): FS
    requires MAPLOC + BitBlocks(|disk|) <= |disk|
  {
    FS(disk, B.BitsOf(DiskMap(disk), BitmapSize(|disk|)), map[])
  }

  lemma AllClean(fs: FS, o: Owners, fs': FS)
    requires Inv(fs, o) && (forall i :: i in fs.vn ==> !fs.vn[i].dirty)
    requires |fs'.disk| == |fs.disk| && fs'.used == fs.used && fs'.vn == map[]
    requires forall b :: b in o ==> BlockAt(fs', b) == BlockAt(fs, b)
    ensures Inv(fs', o) && SameFiles(fs, fs', o)
    ensures forall i :: IsInode(o, i) ==> Cur(fs', i) == Cur(fs, i)
  {
    hide Owned, DecodeInode, Ref, FileBlock;
    KeepView(fs, o, fs');
  }

  lemma MapWritten(fs: FS, o: Owners, fs': FS)
    requires Inv(fs, o) && fs' == fs.(disk := fs'.disk) && |fs'.disk| == |fs.disk|
    requires forall b :: 0 <= b < |fs.disk| && !(MAPLOC <= b < MAPLOC + BitBlocks(|fs.disk|)) ==>
              fs'.disk[b] == fs.disk[b]
    ensures Inv(fs', o) && SameFiles(fs, fs', o)
    ensures forall b :: b in o ==> BlockAt(fs', b) == BlockAt(fs, b)
  {
    hide Owned, DecodeInode, Ref, FileBlock, BitBlocks;
    forall b | b in o
      ensures BlockAt(fs', b) == BlockAt(fs, b)
    {
      MapNotOwned(fs, o, b);
    }
    KeepView(fs, o, fs');
  }

  /** sfs_sync: writes back every vnode and the free map. Afterwards the disk alone holds the
      whole volume: mounting it shows the same files. */
  method Sync(vol: Volume)
    requires vol.Valid()
    modifies vol
    ensures vol.Valid() && vol.owners == old(vol.owners) && SameFiles(old(vol.View()), vol.View(), vol.owners)
    ensures SameTable(old(vol.View()), vol.View()) && |vol.disk| == old(|vol.disk|)
    ensures !vol.freemapdirty
    ensures Mountable(vol.disk, vol.owners) && SameFiles(vol.View(), Mounted(vol.disk), vol.owners)
  {
    hide Inv, Cur, SameFiles, DecodeInode, IsInode, BitBlocks, DiskMap, B.BitsOf;
    ghost var fs0 := vol.View();
    NoChange(fs0, vol.owners);
    SyncAll(vol);
    ghost var fs1 := vol.View();
    DiskShape(fs1, vol.owners);
    MapBytes(|vol.disk|);
    if vol.freemapdirty {
      var disk := WriteMap(vol.disk, vol.freemap.v);
      vol.disk := disk;
      vol.freemapdirty := false;
      MapWritten(fs1, vol.owners, vol.View());
    } else {
      SameMap(fs0.disk, vol.disk);
      NoChange(fs1, vol.owners);
    }
    SameTrans1(fs0, fs1, vol.View(), vol.owners);
    AllClean(vol.View(), vol.owners, Mounted(vol.disk));
  }

  lemma DiskShape(fs: FS, o: Owners)
    requires Inv(fs, o)
    ensures MAPLOC + BitBlocks(|fs.disk|) <= |fs.disk|
  {
  }

  lemma InodeNotMap(fs: FS, o: Owners, i: nat)
    requires Inv(fs, o) && IsInode(o, i)
    ensures !(MAPLOC <= i < MAPLOC + BitBlocks(|fs.disk|))
  {
    hide Inv;
    MapNotOwned(fs, o, i);
  }

  /** The loop of sfs_sync over the vnode table. */
  method SyncAll(vol: Volume)
    requires vol.Valid()
    modifies vol`disk, vol`vnodes
    ensures vol.Valid() && |vol.disk| == old(|vol.disk|) && SameFiles(old(vol.View()), vol.View(), vol.owners)
    ensures SameTable(old(vol.View()), vol.View()) && forall i :: i in vol.vnodes ==> !vol.vnodes[i].dirty
    ensures forall b :: MAPLOC <= b < MAPLOC + BitBlocks(|vol.disk|) && b < |vol.disk| ==>
              vol.disk[b] == old(vol.disk)[b]
  {
    hide Inv, Cur, SameFiles, DecodeInode, IsInode, B.BitsOf, BitBlocks, EncodeInode;
    ghost var fs0 := vol.View();
    NoChange(fs0, vol.owners);
    var todo := vol.vnodes.Keys;
    while todo != {}
      invariant vol.Valid() && |vol.disk| == old(|vol.disk|) && SameFiles(fs0, vol.View(), vol.owners)
      invariant SameTable(fs0, vol.View()) && todo <= vol.vnodes.Keys
      invariant forall i :: i in vol.vnodes && i !in todo ==> !vol.vnodes[i].dirty
      invariant forall b :: MAPLOC <= b < MAPLOC + BitBlocks(|vol.disk|) && b < |vol.disk| ==>
                vol.disk[b] == old(vol.disk)[b]
      decreases todo
    {
      var ino :| ino in todo;
      ghost var fs := vol.View();
      LoadedVnode(fs, vol.owners, ino);
      InodeNotMap(fs, vol.owners, ino);
      vol.SyncInode(ino);
      SameTrans1(fs0, fs, vol.View(), vol.owners);
      todo := todo - {ino};
    }
  }

  /** sfs_domount: reads the free map into memory. */
  method Mount(disk: seq<Block>, ghost o: Owners) returns (vol: Volume)
    requires Mountable(disk, o)
    ensures vol.Valid() && vol.View() == Mounted(disk) && vol.owners == o && fresh(vol) && fresh(vol.freemap.v)
  {
    hide Inv, BitBlocks, DiskMap, B.BitsOf, B.Get;
    MapBytes(|disk|);
    var freemap := new B.Bitmap(BitmapSize(|disk|));
    ReadMap(disk, freemap.v);
    vol := new Volume(disk, freemap, o);
  }

  // ---------------------------------------------------------------- mksfs

  /** doallocbit: its assertion that the bit is clear is the precondition. */
  method DoAllocBit(bitbuf: array<bv8>, bit: nat)
    requires bit < 8 * bitbuf.Length && !B.Get(bitbuf[..], bit)
    modifies bitbuf
    ensures forall i :: 0 <= i < 8 * bitbuf.Length ==> B.Get(bitbuf[..], i) == (i == bit || B.Get(old(bitbuf[..]), i))
  {
    hide B.Bit, B.With, B.Get, B.BitsOf;
    B.Marked(bitbuf[..], 8 * bitbuf.Length, bit);
    bitbuf[bit / 8] := B.With(bitbuf[bit / 8], bit % 8);
    assert bitbuf[..] == old(bitbuf[..])[bit / 8 := B.With(old(bitbuf[..])[bit / 8], bit % 8)];
  }

  /** writebitmap, up to writing the map out: exactly the reserved blocks, the root inode and
      the bits past the end of the disk are marked. */
  method MarkBits(bitbuf: array<bv8>, fsblocks: nat)
    requires fsblocks >= 3 && 8 * bitbuf.Length == BitmapSize(fsblocks)
    requires forall i :: 0 <= i < 8 * bitbuf.Length ==> !B.Get(bitbuf[..], i)
    modifies bitbuf
    ensures forall i :: 0 <= i < 8 * bitbuf.Length ==> B.Get(bitbuf[..], i) == (i == ROOT || IsReserved(fsblocks, i))
  {
    hide B.Get, BitmapSize, BitBlocks;
    var nbits, nblocks := BitmapSize(fsblocks), BitBlocks(fsblocks);
    EnoughBlocks(fsblocks);
    DoAllocBit(bitbuf, 0);
    DoAllocBit(bitbuf, ROOT);
    for i := 0 to nblocks
      invariant forall k :: 0 <= k < nbits ==> B.Get(bitbuf[..], k) == (k < 2 || MAPLOC <= k < MAPLOC + i)
    {
      DoAllocBit(bitbuf, MAPLOC + i);
    }
    for i := fsblocks to nbits
      invariant forall k :: 0 <= k < nbits ==>
                  B.Get(bitbuf[..], k) == (k < 2 || MAPLOC <= k < MAPLOC + nblocks || fsblocks <= k < i)
    {
      DoAllocBit(bitbuf, i);
    }
  }

  lemma EnoughBlocks(n: nat)
    requires n >= 3
    ensures MAPLOC + BitBlocks(n) <= n <= BitmapSize(n)
  {
  }

  const RootInode0: Inode := InodeRecord(0, TDIR, 1, Zeros(15), 0, Zeros(110))

  /** mksfs: a fresh volume is mountable, and its root directory is empty. The superblock is
      passed in; the contents of the other blocks are whatever was on the device. */
  method Format(device: seq<Block>, super: Block) returns (disk: seq<Block>, ghost o: Owners)
    requires 3 <= |device| <= MAXDISK
    ensures |disk| == |device| && Mountable(disk, o) && DirInv(Mounted(disk), o)
    ensures NameMap(Mounted(disk)) == map[] && (forall i :: IsInode(o, i) <==> i == ROOT) && o.Keys == {ROOT}
    // the root directory is the empty directory in block 1, with one link
    ensures o.Keys == {1} && var x := Cur(Mounted(disk), 1); x.itype == 2 && x.linkcount == 1 && x.size == 0
  {
    hide B.Get, BitmapSize, BitBlocks, Inv, DirInv, NameMap, B.BitsOf, DiskMap, EncodeInode, Cur;
    disk := device[0 := super];
    disk := disk[ROOT := EncodeInode(RootInode0)];
    MapBytes(|disk|);
    EnoughBlocks(|disk|);
    var bitbuf := new bv8[512 * BitBlocks(|disk|)](_ => 0);
    B.NoBits(bitbuf[..]);
    MarkBits(bitbuf, |disk|);
    disk := WriteMap(disk, bitbuf);
    o := map[ROOT := InodeOf(ROOT)];
    FreshVolume(disk, o);
  }

  lemma FreshVolume(disk: seq<Block>, o: Owners)
    requires 3 <= |disk| <= MAXDISK && o == map[ROOT := InodeOf(ROOT)]
    requires disk[ROOT] == EncodeInode(RootInode0) && MAPLOC + BitBlocks(|disk|) <= |disk|
    requires var v := DiskMap(disk);
             && 8 * |v| == BitmapSize(|disk|)
             && forall i :: 0 <= i < 8 * |v| ==> B.Get(v, i) == (i == ROOT || IsReserved(|disk|, i))
    ensures Mountable(disk, o) && DirInv(Mounted(disk), o)
    ensures NameMap(Mounted(disk)) == map[] && (forall i :: IsInode(o, i) <==> i == ROOT)
    ensures Cur(Mounted(disk), ROOT) == RootInode0
  {
    hide B.Get, DiskMap, EncodeInode, DecodeInode, ToWords;
    var fs := Mounted(disk);
    InodeRoundTrip(RootInode0);
    assert Cur(fs, ROOT) == RootInode0;
    assert fs.used == Reserved(|disk|) + {ROOT};
    forall s | SlotOk(o, s)
      ensures Refs(fs)(s) == if s == InodeOf(ROOT) then ROOT else 0
    {
    }
    assert Content(fs, ROOT) == [];
    assert DirOf(fs) == [];
  }
}
