/** kern/fs/sfs/sfs_vnode.c: the root directory and the operations on names. */
module SfsDirectory {
  import opened Codec
  import opened SfsModel
  import opened SfsSteps
  import opened SfsTruncate
  import opened SfsBytes
  import opened SfsEntries
  import opened SfsVolume
  import opened Uio

  const TFILE: u16 := 1
  const TDIR: u16 := 2
  const DIRSLOTS := 1144   // MAXFILE / 64

  ghost function DirOf(fs: FS): seq<Entry> { Dir(Content(fs, ROOT)) }

  /** The directory as a map from names to inode numbers. */
  ghost function NameMap(fs: FS): map<Name, u32> {
    if Unique(DirOf(fs)) then AsMap(DirOf(fs)) else map[]
  }

  /** The root is a directory of whole entries with unique names. */
  ghost predicate DirShape(fs: FS) {
    var x := Cur(fs, ROOT);
    x.itype == TDIR && x.size % 64 == 0 && x.size <= MAXFILE && Unique(DirOf(fs))
  }

  /** Every entry names an inode, and each link count is the number of entries naming it; the
      root has one more. */
  ghost predicate LinksOk(fs: FS, o: Owners, d: seq<Entry>) {
    && (forall k :: Used(d, k) ==> IsInode(o, d[k].ino))
    && (forall i :: IsInode(o, i) ==> Cur(fs, i).linkcount == Links(d, i) + if i == ROOT then 1 else 0)
  }

  /** Everything but the root is a regular file, and an inode without links is held by a vnode. */
  ghost predicate FilesOk(fs: FS, o: Owners) {
    && (forall i :: IsInode(o, i) && i != ROOT ==> Cur(fs, i).itype == TFILE)
    && (forall i :: IsInode(o, i) && Cur(fs, i).linkcount == 0 ==> i in fs.vn)
  }

  ghost predicate DirInv(fs: FS, o: Owners) {
    DirShape(fs) && LinksOk(fs, o, DirOf(fs)) && FilesOk(fs, o)
  }

  /** File j has the same size, type and bytes. */
  ghost predicate FileSame(fs: FS, fs': FS, j: nat) {
    && Cur(fs', j).size == Cur(fs, j).size && Cur(fs', j).itype == Cur(fs, j).itype
    && forall p: nat :: FileByte(fs', j, p) == FileByte(fs, j, p)
  }

  lemma SameContent(fs: FS, fs': FS, j: nat)
    requires FileSame(fs, fs', j)
    ensures Content(fs', j) == Content(fs, j) && (ZeroTail(fs, j) <==> ZeroTail(fs', j))
  {
    hide Cur, FileByte;
  }

  /** The state after a change that is confined to the bytes and the size of the root. */
  ghost predicate OnlyRoot(fs: FS, o: Owners, fs': FS, o': Owners) {
    && SameInodes(o, o') && SameTable(fs, fs')
    && (forall j :: IsInode(o, j) && j != ROOT ==> FileSame(fs, fs', j))
    && (forall j :: IsInode(o, j) ==>
          Cur(fs', j).linkcount == Cur(fs, j).linkcount && Cur(fs', j).itype == Cur(fs, j).itype)
  }

  // ---------------------------------------------------------------- slots

  /** sfs_readdir. The short-entry panic cannot happen. */
  method ReadDir(vol: Volume, slot: nat) returns (sd: Entry)
    requires vol.Valid() && DirShape(vol.View()) && ROOT in vol.vnodes && slot < |DirOf(vol.View())|
    modifies vol, vol.freemap.v
    ensures vol.View() == old(vol.View()) && vol.owners == old(vol.owners) && vol.Valid()
    ensures sd == DirOf(vol.View())[slot]
  {
    hide MapSaved, Inv, Splice, Bytes, Content, Encode, Decode, SfsModel.Ref, Unique;
    ghost var fs := vol.View();
    RootSize(fs);
    LoadedVnode(fs, vol.owners, ROOT);
    var buf := new byte[64](_ => 0);
    var ku := new Uio(buf, 0, 64, 64 * slot, UioRead);
    assert buf[..] == Zeros(64);
    var err := vol.Io(ROOT, ku);
    SlotRead(fs, slot);
    SpliceAll(Zeros(64), Bytes(fs, ROOT, 64 * slot, 64));
    if err != EOK || ku.resid > 0 {
      assert false;   // panic: short entry
    }
    sd := Decode(buf[..]);
  }

  lemma RootSize(fs: FS)
    ensures |Content(fs, ROOT)| == Cur(fs, ROOT).size
  {
  }

  lemma SlotRead(fs: FS, slot: nat)
    requires DirShape(fs) && slot < |DirOf(fs)|
    ensures 64 * slot + 64 <= Cur(fs, ROOT).size
    ensures DirOf(fs)[slot] == Decode(Bytes(fs, ROOT, 64 * slot, 64))
  {
    hide Cur, FileByte, Decode, Unique;
    BytesContent(fs, ROOT, 64 * slot, 64);
  }

  /** sfs_writedir. A slot is written whole or not at all, and a slot in use can always be
      overwritten. */
  method WriteDir(vol: Volume, e: Entry, slot: nat) returns (err: Errno)
    requires vol.Valid() && DirShape(vol.View()) && ROOT in vol.vnodes
    requires slot <= |DirOf(vol.View())| && |e.name| < NAMELEN
    modifies vol, vol.freemap.v
    ensures vol.Valid() && |vol.disk| == old(|vol.disk|)
    ensures OnlyRoot(old(vol.View()), old(vol.owners), vol.View(), vol.owners)
    ensures RootLen(vol.View())
    ensures err == EOK || err == EINVAL || err == ENOSPC
    ensures (err == EINVAL <==> slot >= DIRSLOTS) && (err == ENOSPC ==> Full(vol.View()))
    ensures OnlyVnode(old(vol.View()), vol.View(), ROOT)
    ensures DirOf(vol.View()) == if err == EOK then SetSlot(DirOf(old(vol.View())), slot, e) else DirOf(old(vol.View()))
    ensures Used(DirOf(old(vol.View())), slot) ==> err == EOK && vol.View().used == old(vol.View()).used
    ensures Allocs(old(vol.View()), vol.View(), if err == EOK then 2 else 1)
  {
    hide MapSaved, Inv, Splice, Bytes, Content, Encode, Decode, SfsModel.Ref, Unique, Written, OnlyRoot, NoRoom;
    hide SameInodes, SameTable, SetSlot, Room, Allocs, InPlace, Cost, Blocks, OnlyVnode, Full;
    ghost var fs, o := vol.View(), vol.owners;
    RootSize(fs);
    LoadedVnode(fs, o, ROOT);
    var bytes := Encode(e);
    var buf := new byte[64](k requires 0 <= k < 64 => bytes[k]);
    var ku := new Uio(buf, 0, 64, 64 * slot, UioWrite);
    assert buf[..] == bytes;
    err := vol.Io(ROOT, ku);
    assert ku.base == 0 || ku.base == 64;
    if err == ENOSPC {
      NoRoomFull(vol.View(), ROOT, ku.offset);
    }
    SlotAllocs(fs, vol.View(), slot, ku.offset, err);
    WroteSlot(fs, o, vol.View(), vol.owners, slot, e, buf[..][0..ku.base], err == ENOSPC);
  }

  /** An entry lies in one block, and in no new one if the slot is in use. */
  lemma SlotAllocs(fs: FS, fs': FS, slot: nat, p: nat, err: Errno)
    requires |fs'.disk| == |fs.disk| && fs.used <= fs'.used
    requires Room(fs, ROOT) <= Room(fs', ROOT) + Cost(64 * slot, p, err)
    requires if err == EOK then p == 64 * slot + 64 else p == 64 * slot
    requires InPlace(fs, ROOT, 64 * slot, 64) ==> fs'.used == fs.used
    ensures Allocs(fs, fs', if err == EOK then 2 else 1)
    ensures DirShape(fs) && Used(DirOf(fs), slot) ==> fs'.used == fs.used
  {
    hide Room, InPlace, Used;
    RoomAllocs(fs, fs', ROOT, if err == EOK then 1 else 0);
    if DirShape(fs) && Used(DirOf(fs), slot) {
      StoredSlot(fs, slot);
    }
  }

  /** The block of a slot in use is stored. */
  lemma StoredSlot(fs: FS, slot: nat)
    requires DirShape(fs) && Used(DirOf(fs), slot)
    ensures InPlace(fs, ROOT, 64 * slot, 64)
  {
    hide Cur, FileBlock, Content, Decode, Unique;
    SlotRead(fs, slot);
    if FileBlock(fs, ROOT, 64 * slot / 512) == ZeroBlock {
      var p := 64 * slot;
      assert p / 512 == (p + 1) / 512 == (p + 2) / 512 == (p + 3) / 512;
      ZeroSlot(fs, slot);
      assert false;
    }
  }

  ghost predicate RootLen(fs: FS) {
    Cur(fs, ROOT).size % 64 == 0 && Cur(fs, ROOT).size <= MAXFILE
  }

  /** What a write of a whole entry, or of nothing, does to the directory. */
  lemma WroteSlot(fs: FS, o: Owners, fs': FS, o': Owners, slot: nat, e: Entry, b: seq<byte>, noroom: bool)
    requires Inv(fs, o) && DirShape(fs) && slot <= |DirOf(fs)| && |e.name| < NAMELEN
    requires SameInodes(o, o') && SameTable(fs, fs') && Written(fs, fs', o, ROOT, 64 * slot, b)
    requires b == Encode(e) || b == []
    requires b == Encode(e) ==> 64 * slot + 64 <= MAXFILE
    requires noroom ==> b == [] && NoRoom(fs', ROOT, 64 * slot)
    ensures OnlyRoot(fs, o, fs', o') && RootLen(fs')
    ensures DirOf(fs') == if b == Encode(e) then SetSlot(DirOf(fs), slot, e) else DirOf(fs)
    ensures noroom ==> !Used(DirOf(fs), slot)
  {
    hide Inv, Content, Encode, Decode, FileByte, Cur, NoRoom, Overlay, SetSlot, Dir, FileBlock, Unique, Used;
    assert IsInode(o, ROOT) by { RootInode(fs, o); }
    RootSize(fs);
    var c := Content(fs, ROOT);
    WrittenContent(fs, fs', o, ROOT, 64 * slot, b);
    assert ZeroGap(fs, ROOT, 64 * slot);
    if b == [] {
      OverlayNothing(c, 64 * slot);
    } else {
      WriteSlot(c, slot, e);
    }
    OnlyRootWritten(fs, o, fs', o', slot, b);
    if noroom {
      EmptySlotBlock(fs, fs', o, slot);
    }
  }

  lemma RootInode(fs: FS, o: Owners)
    requires Inv(fs, o)
    ensures IsInode(o, ROOT)
  {
  }

  lemma OverlayNothing(c: seq<byte>, off: nat)
    requires off <= |c|
    ensures Overlay(c, off, []) == c
  {
  }

  lemma OnlyRootWritten(fs: FS, o: Owners, fs': FS, o': Owners, slot: nat, b: seq<byte>)
    requires SameInodes(o, o') && SameTable(fs, fs') && Written(fs, fs', o, ROOT, 64 * slot, b) && IsInode(o, ROOT)
    requires Cur(fs, ROOT).size % 64 == 0 && 64 * slot <= Cur(fs, ROOT).size <= MAXFILE
    requires |b| == 0 || (|b| == 64 && 64 * slot + 64 <= MAXFILE)
    ensures OnlyRoot(fs, o, fs', o') && RootLen(fs')
  {
    hide FileByte, Cur, IsInode;
  }

  /** A slot of a block that is not stored is free. */
  lemma EmptySlotBlock(fs: FS, fs': FS, o: Owners, slot: nat)
    requires Written(fs, fs', o, ROOT, 64 * slot, []) && NoRoom(fs', ROOT, 64 * slot) && IsInode(o, ROOT)
    requires DirShape(fs)
    ensures !Used(DirOf(fs), slot)
  {
    hide Cur, FileBlock, Content, Decode, Unique;
    if slot < |DirOf(fs)| {
      SlotRead(fs, slot);
      ZeroByte(fs, fs', o, slot, 0);
      ZeroByte(fs, fs', o, slot, 1);
      ZeroByte(fs, fs', o, slot, 2);
      ZeroByte(fs, fs', o, slot, 3);
      ZeroSlot(fs, slot);
    }
  }

  lemma ZeroSlot(fs: FS, slot: nat)
    requires FileByte(fs, ROOT, 64 * slot) == 0 && FileByte(fs, ROOT, 64 * slot + 1) == 0
    requires FileByte(fs, ROOT, 64 * slot + 2) == 0 && FileByte(fs, ROOT, 64 * slot + 3) == 0
    ensures Decode(Bytes(fs, ROOT, 64 * slot, 64)).ino == 0
  {
    hide Cur, FileByte, CString;
  }

  lemma ZeroByte(fs: FS, fs': FS, o: Owners, slot: nat, q: nat)
    requires Written(fs, fs', o, ROOT, 64 * slot, []) && NoRoom(fs', ROOT, 64 * slot) && IsInode(o, ROOT) && q < 4
    ensures FileByte(fs, ROOT, 64 * slot + q) == 0
  {
    hide Cur, FileBlock;
    var p := 64 * slot + q;
    assert p / 512 == (64 * slot) / 512;
    assert FileByte(fs', ROOT, p) == 0;
  }

  /** sfs_dir_findname: the slot of a name, and the last free slot seen. The assertion that a
      name appears only once holds. */
  method FindName(vol: Volume, name: Name) returns (err: Errno, ino: u32, slot: nat, emptyslot: int)
    requires vol.Valid() && DirShape(vol.View()) && ROOT in vol.vnodes
    modifies vol, vol.freemap.v
    ensures vol.View() == old(vol.View()) && vol.owners == old(vol.owners) && vol.Valid()
    ensures err == EOK || err == ENOENT
    ensures var d := DirOf(vol.View());
            && (err == EOK ==> Used(d, slot) && d[slot].name == name && d[slot].ino == ino)
            && (err == ENOENT ==> !HasName(d, name))
            && -1 <= emptyslot < |d| && (emptyslot >= 0 ==> !Used(d, emptyslot))
            && (forall k :: emptyslot < k < |d| ==> Used(d, k))
  {
    hide MapSaved, Inv, Content, Cur, Dir;
    ghost var d := DirOf(vol.View());
    var found := false;
    ino, slot, emptyslot := 0, 0, -1;
    LoadedVnode(vol.View(), vol.owners, ROOT);
    RootSize(vol.View());
    var nentries := vol.vnodes[ROOT].inode.size / 64;
    for i := 0 to nentries
      invariant vol.Valid() && vol.View() == old(vol.View()) && vol.owners == old(vol.owners)
      invariant -1 <= emptyslot < |d| && (emptyslot >= 0 ==> !Used(d, emptyslot))
      invariant emptyslot < i && forall k :: emptyslot < k < i ==> Used(d, k)
      invariant found ==> slot < i && Used(d, slot) && d[slot].name == name && d[slot].ino == ino
      invariant !found ==> forall k :: 0 <= k < i && Used(d, k) ==> d[k].name != name
    {
      var tsd := ReadDir(vol, i);
      if tsd.ino == 0 {
        emptyslot := i;
      } else if tsd.name == name {
        if found {
          assert false;   // assert(found==0)
        }
        found, slot, ino := true, i, tsd.ino;
      }
    }
    err := if found then EOK else ENOENT;
  }

  /** Every slot a directory can have is in use. */
  ghost predicate DirFull(d: seq<Entry>) {
    |d| >= DIRSLOTS && forall k :: 0 <= k < |d| ==> Used(d, k)
  }

  /** sfs_dir_link: adds an entry in a free slot, or at the end. */
  method DirLink(vol: Volume, name: Name, ino: u32) returns (err: Errno, slot: nat)
    requires vol.Valid() && DirShape(vol.View()) && ROOT in vol.vnodes && ino != 0
    modifies vol, vol.freemap.v
    ensures vol.Valid() && |vol.disk| == old(|vol.disk|)
    ensures OnlyRoot(old(vol.View()), old(vol.owners), vol.View(), vol.owners) && RootLen(vol.View())
    ensures err == EEXIST <==> HasName(DirOf(old(vol.View())), name)
    ensures err == ENAMETOOLONG <==> !HasName(DirOf(old(vol.View())), name) && |name| >= NAMELEN
    ensures err == EINVAL <==>
              !HasName(DirOf(old(vol.View())), name) && |name| < NAMELEN && DirFull(DirOf(old(vol.View())))
    ensures err == ENOSPC ==> Full(vol.View())
    ensures err == EOK || err == EEXIST || err == ENAMETOOLONG || err == EINVAL || err == ENOSPC
    ensures OnlyVnode(old(vol.View()), vol.View(), ROOT)
    ensures var d := DirOf(old(vol.View()));
            && (err != EOK ==> DirOf(vol.View()) == d)
            && (err == EOK ==> slot <= |d| && !Used(d, slot) && DirOf(vol.View()) == SetSlot(d, slot, Entry(ino, name)))
            // the last free slot, and a new one only when there is none
            && (err == EOK ==> forall k :: (if slot < |d| then slot else -1) < k < |d| ==> Used(d, k))
    ensures Allocs(old(vol.View()), vol.View(), if err == EOK then 2 else 1)
  {
    hide MapSaved, Inv, Content, Cur, Dir, OnlyRoot, SetSlot, FileByte, Unique, FreeOf;
    ghost var fs, o := vol.View(), vol.owners;
    OnlyRootRefl(fs, o);
    var e, i, s, emptyslot := FindName(vol, name);
    if e == EOK {
      return EEXIST, 0;
    }
    if |name| + 1 > NAMELEN {
      return ENAMETOOLONG, 0;
    }
    LoadedVnode(fs, o, ROOT);
    RootSize(fs);
    if emptyslot < 0 {
      emptyslot := vol.vnodes[ROOT].inode.size / 64;
    }
    slot := emptyslot;
    err := WriteDir(vol, Entry(ino, name), slot);
  }

  lemma OnlyRootRefl(fs: FS, o: Owners)
    ensures OnlyRoot(fs, o, fs, o) && (DirShape(fs) ==> RootLen(fs))
  {
  }

  // ---------------------------------------------------------------- keeping the invariant

  ghost predicate Ready(vol: Volume)
    reads vol, vol.freemap.v
  {
    vol.Valid() && DirInv(vol.View(), vol.owners) && ROOT in vol.vnodes
  }

  /** Changing the link count of a loaded inode changes no file and no entry. */
  lemma SetLinkcount(fs: FS, o: Owners, i: nat, n: u16)
    requires Inv(fs, o) && i in fs.vn
    ensures var fs' := WithInode(fs, i, fs.vn[i].inode.(linkcount := n));
            && Inv(fs', o) && SameTable(fs, fs') && Cur(fs', i) == fs.vn[i].inode.(linkcount := n)
            && (forall j :: IsInode(o, j) && j != i ==> Cur(fs', j) == Cur(fs, j))
            && (forall j :: IsInode(o, j) ==> FileSame(fs, fs', j))
            && DirOf(fs') == DirOf(fs)
  {
    hide Inv, FileByte, DecodeInode, Dir, Content;
    var x := fs.vn[i].inode.(linkcount := n);
    var fs' := WithInode(fs, i, x);
    LoadedVnode(fs, o, i);
    SetFields(fs, o, i, x);
    SameBytesAfter(fs, fs', o);
    RootInode(fs, o);
    SameContent(fs, fs', ROOT);
  }

  /** Link counts stay right when an entry for i is added and i's count is raised. */
  lemma LinkedOk(fs: FS, o: Owners, fs': FS, o': Owners, d: seq<Entry>, slot: nat, e: Entry)
    requires LinksOk(fs, o, d) && SameInodes(o, o') && slot <= |d| && !Used(d, slot) && e.ino != 0 && IsInode(o, e.ino)
    requires forall j :: IsInode(o, j) ==> Cur(fs', j).linkcount == Cur(fs, j).linkcount + if j == e.ino then 1 else 0
    requires !IsInode(o, 0)
    ensures LinksOk(fs', o', SetSlot(d, slot, e))
  {
    hide Cur, IsInode;
    var d' := SetSlot(d, slot, e);
    forall j | IsInode(o', j)
      ensures Cur(fs', j).linkcount == Links(d', j) + if j == ROOT then 1 else 0
    {
      assert IsInode(o, j);
      LinksSet(d, slot, e, j);
    }
    forall k | Used(d', k)
      ensures IsInode(o', d'[k].ino)
    {
      if k != slot { assert Used(d, k); }
    }
  }

  /** And when an entry is cleared and the count of its inode is lowered. */
  lemma UnlinkedOk(fs: FS, o: Owners, fs': FS, o': Owners, d: seq<Entry>, slot: nat)
    requires LinksOk(fs, o, d) && SameInodes(o, o') && Used(d, slot)
    requires forall j :: IsInode(o, j) ==>
              Cur(fs', j).linkcount == Cur(fs, j).linkcount - if j == d[slot].ino then 1 else 0
    requires !IsInode(o, 0)
    ensures LinksOk(fs', o', d[slot := FreeEntry])
  {
    hide Cur, IsInode;
    var d' := d[slot := FreeEntry];
    forall j | IsInode(o', j)
      ensures Cur(fs', j).linkcount == Links(d', j) + if j == ROOT then 1 else 0
    {
      assert IsInode(o, j);
      LinksUpdate(d, slot, FreeEntry, j);
    }
    forall k | Used(d', k)
      ensures IsInode(o', d'[k].ino)
    {
      assert Used(d, k);
    }
  }

  lemma ZeroNotInode(fs: FS, o: Owners)
    requires Inv(fs, o)
    ensures !IsInode(o, 0)
  {
    hide Ref, Clean;
    DiskNonEmpty(fs, o);
    assert IsReserved(|fs.disk|, 0);
  }

  /** No regular file that is still there has changed. */
  ghost predicate FilesKept(fs: FS, o: Owners, fs': FS, o': Owners) {
    forall j :: IsInode(o, j) && IsInode(o', j) && j != ROOT ==> FileSame(fs, fs', j)
  }

  lemma StillDirInv(fs: FS, o: Owners, fs': FS, o': Owners)
    requires DirInv(fs, o) && OnlyRoot(fs, o, fs', o') && RootLen(fs') && DirOf(fs') == DirOf(fs) && IsInode(o, ROOT)
    ensures DirInv(fs', o') && FilesKept(fs, o, fs', o')
  {
    hide Cur, FileByte, IsInode, Dir, Content, Unique;
  }

  /** What a change of the root directory leaves of another vnode. */
  lemma VnodeKept(fs: FS, o: Owners, fs': FS, o': Owners, i: nat)
    requires Inv(fs, o) && Inv(fs', o') && OnlyRoot(fs, o, fs', o') && i in fs.vn
    ensures SameInodes(o, o') && SameTable(fs, fs') && i in fs'.vn
    ensures fs'.vn[i].inode.linkcount == fs.vn[i].inode.linkcount
  {
    LoadedVnode(fs, o, i);
    LoadedVnode(fs', o', i);
    assert Cur(fs, i) == fs.vn[i].inode && Cur(fs', i) == fs'.vn[i].inode;
  }

  function Relinked(fs: FS, i: nat, n: u16): FS
    requires i in fs.vn
  {
    WithInode(fs, i, fs.vn[i].inode.(linkcount := n))
  }

  /** An entry for e.ino was written and its link count raised. */
  lemma LinkDone(fs: FS, o: Owners, fs1: FS, o1: Owners, slot: nat, e: Entry)
    requires DirInv(fs, o) && Inv(fs, o) && Inv(fs1, o1) && OnlyRoot(fs, o, fs1, o1) && RootLen(fs1)
    requires slot <= |DirOf(fs)| && !Used(DirOf(fs), slot) && !HasName(DirOf(fs), e.name)
    requires DirOf(fs1) == SetSlot(DirOf(fs), slot, e) && e.ino != 0 && IsInode(o, e.ino) && e.ino in fs1.vn
    ensures fs1.vn[e.ino].inode.linkcount < 0xffff
    ensures var fs2 := Relinked(fs1, e.ino, fs1.vn[e.ino].inode.linkcount + 1);
            && Inv(fs2, o1) && DirInv(fs2, o1) && SameTable(fs, fs2) && FilesKept(fs, o, fs2, o1)
            && NameMap(fs2) == NameMap(fs)[e.name := e.ino]
            && DirOf(fs2) == DirOf(fs1)
  {
    hide Inv, Cur, FileByte, IsInode, Dir, Content, Unique, SetSlot, AsMap, Used, Links;
    ZeroNotInode(fs, o);
    RootInode(fs, o);
    LoadedVnode(fs1, o1, e.ino);
    LinksBound(DirOf(fs), e.ino);
    RootSize(fs);
    InsertEntry(DirOf(fs), slot, e);
    SetLinkcount(fs1, o1, e.ino, fs1.vn[e.ino].inode.linkcount + 1);
    var fs2 := Relinked(fs1, e.ino, fs1.vn[e.ino].inode.linkcount + 1);
    LinkedOk(fs, o, fs2, o1, DirOf(fs), slot, e);
    RelinkedFiles(fs, o, fs1, o1, fs2);
  }

  /** Facts about types, sizes and vnodes that any change of link counts keeps. */
  lemma RelinkedFiles(fs: FS, o: Owners, fs1: FS, o1: Owners, fs2: FS)
    requires DirInv(fs, o) && OnlyRoot(fs, o, fs1, o1) && RootLen(fs1) && IsInode(o, ROOT)
    requires forall j :: IsInode(o1, j) ==> FileSame(fs1, fs2, j)
    requires SameTable(fs1, fs2)
    requires forall j :: IsInode(o1, j) && Cur(fs2, j).linkcount == 0 ==> Cur(fs, j).linkcount == 0 || j in fs2.vn
    ensures Cur(fs2, ROOT).itype == TDIR && RootLen(fs2) && FilesOk(fs2, o1)
    ensures FilesKept(fs, o, fs2, o1) && SameTable(fs, fs2)
  {
    hide Cur, FileByte, IsInode, Dir, Content, Unique, LinksOk;
  }

  /** Entries in use keep their slots. */
  ghost predicate EntriesStay(d: seq<Entry>, d': seq<Entry>) {
    forall k :: Used(d, k) ==> k < |d'| && d'[k] == d[k]
  }

  lemma StayRefl(d: seq<Entry>)
    ensures EntriesStay(d, d)
  {
  }

  lemma StayAfterLink(d: seq<Entry>, slot: nat, e: Entry)
    requires slot <= |d| && !Used(d, slot)
    ensures EntriesStay(d, SetSlot(d, slot, e))
  {
  }

  /** A directory is full exactly when it has as many names as slots. */
  lemma FullBySize(fs: FS)
    requires DirShape(fs)
    ensures DirFull(DirOf(fs)) <==> |NameMap(fs)| == DIRSLOTS
  {
    hide AsMap, Unique, Used, Dir;
    RootSize(fs);
    MapSize(DirOf(fs));
    DirSlots(Content(fs, ROOT));
  }

  lemma DirSlots(c: seq<byte>)
    requires |c| % 64 == 0 && |c| <= MAXFILE
    ensures |Dir(c)| <= DIRSLOTS
  {
  }

  /** sfs_link */
  method Link(vol: Volume, name: Name, ino: u32) returns (err: Errno)
    requires Ready(vol) && ino in vol.vnodes
    modifies vol, vol.freemap.v
    ensures Ready(vol) && SameInodes(old(vol.owners), vol.owners) && SameTable(old(vol.View()), vol.View())
    ensures FilesKept(old(vol.View()), old(vol.owners), vol.View(), vol.owners)
    ensures var m := NameMap(old(vol.View()));
            && (err == EEXIST <==> name in m)
            && (err == ENAMETOOLONG <==> name !in m && |name| >= NAMELEN)
            && (err == EINVAL <==> name !in m && |name| < NAMELEN && |m| == DIRSLOTS)
            && NameMap(vol.View()) == if err == EOK then m[name := ino] else m
    ensures err == ENOSPC ==> Full(vol.View())
    ensures err == EOK || err == EEXIST || err == ENAMETOOLONG || err == EINVAL || err == ENOSPC
    ensures err != EOK ==> OnlyVnode(old(vol.View()), vol.View(), ROOT)
    ensures Allocs(old(vol.View()), vol.View(), if err == EOK then 2 else 1)
    ensures EntriesStay(DirOf(old(vol.View())), DirOf(vol.View()))
    ensures ino in vol.vnodes
    ensures vol.vnodes[ino].inode.linkcount == old(vol.vnodes[ino]).inode.linkcount + if err == EOK then 1 else 0
  {
    hide MapSaved, Inv, Cur, Dir, DirOf, Unique, SetSlot, AsMap, Used, Links, LinksOk, FilesOk, EntriesStay;
    hide OnlyVnode, Full;
    hide DirFull, OnlyRoot, SameInodes, IsInode, FilesKept, SameTable, FreeOf;
    ghost var fs, o := vol.View(), vol.owners;
    InMap(DirOf(fs), name);
    FullBySize(fs);
    LoadedVnode(fs, o, ino);
    RootInode(fs, o);
    ZeroNotInode(fs, o);
    var slot;
    err, slot := DirLink(vol, name, ino);
    VnodeKept(fs, o, vol.View(), vol.owners, ino);
    if err != EOK {
      StillDirInv(fs, o, vol.View(), vol.owners);
      StayRefl(DirOf(fs));
      return;
    }
    StayAfterLink(DirOf(fs), slot, Entry(ino, name));
    LinkDone(fs, o, vol.View(), vol.owners, slot, Entry(ino, name));
    ghost var fs1 := vol.View();
    vol.vnodes := vol.vnodes[ino := vol.vnodes[ino].(
                    inode := vol.vnodes[ino].inode.(linkcount := vol.vnodes[ino].inode.linkcount + 1), dirty := true)];
    assert vol.View() == Relinked(fs1, ino, fs1.vn[ino].inode.linkcount + 1);
    SameFree(fs1, vol.View());
  }

  lemma NamedPositive(fs: FS, o: Owners, fs1: FS, o1: Owners, d: seq<Entry>, slot: nat)
    requires DirInv(fs, o) && Inv(fs1, o1) && OnlyRoot(fs, o, fs1, o1) && d == DirOf(fs)
    requires Used(d, slot) && d[slot].ino in fs1.vn
    ensures fs1.vn[d[slot].ino].inode.linkcount > 0
  {
    hide Inv, Cur, FileByte, IsInode, Dir, Content, Unique, Links;
    LoadedVnode(fs1, o1, d[slot].ino);
    LinksPositive(d, slot);
  }

  /** An entry was cleared and the link count of its inode lowered. */
  lemma UnlinkDone(fs: FS, o: Owners, fs1: FS, o1: Owners, d: seq<Entry>, slot: nat, i: nat, n: u16)
    requires DirInv(fs, o) && Inv(fs, o) && Inv(fs1, o1) && OnlyRoot(fs, o, fs1, o1) && RootLen(fs1)
    requires d == DirOf(fs) && Used(d, slot) && d[slot].ino == i && DirOf(fs1) == d[slot := FreeEntry]
    requires i in fs1.vn && fs1.vn[i].inode.linkcount == n + 1
    ensures var fs2 := Relinked(fs1, i, n);
            && Inv(fs2, o1) && DirInv(fs2, o1) && SameTable(fs, fs2) && FilesKept(fs, o, fs2, o1)
            && NameMap(fs2) == NameMap(fs) - {d[slot].name}
            && Cur(fs2, i).linkcount == n
  {
    hide Inv, Cur, FileByte, IsInode, Dir, Content, Unique, AsMap, Links, Used;
    ZeroNotInode(fs, o);
    RootInode(fs, o);
    LoadedVnode(fs1, o1, i);
    RemoveEntry(d, slot);
    SetLinkcount(fs1, o1, i, n);
    UnlinkedOk(fs, o, Relinked(fs1, i, n), o1, d, slot);
    RelinkedFiles(fs, o, fs1, o1, Relinked(fs1, i, n));
  }

  /** The same inodes and files, seen through a vnode table that keeps every unlinked inode. */
  lemma SameView(fs: FS, o: Owners, fs': FS, o': Owners)
    requires DirInv(fs, o) && SameInodes(o, o') && SameFiles(fs, fs', o) && IsInode(o, ROOT)
    requires forall j :: IsInode(o, j) && j in fs.vn && Cur(fs, j).linkcount == 0 ==> j in fs'.vn
    ensures DirInv(fs', o') && FilesKept(fs, o, fs', o') && DirOf(fs') == DirOf(fs)
  {
    hide Cur, FileBlock, IsInode, Dir, Content, Unique;
    forall j | IsInode(o, j)
      ensures FileSame(fs, fs', j)
    {
      SameBlocksBytes(fs, fs', j);
    }
    SameContent(fs, fs', ROOT);
  }

  lemma SameBlocksBytes(fs: FS, fs': FS, j: nat)
    requires SameBlocks(fs, fs', j) && SameMeta(Cur(fs, j), Cur(fs', j))
    ensures FileSame(fs, fs', j)
  {
    hide Cur, FileBlock;
  }

  /** An inode that no entry names was erased. */
  lemma ErasedView(fs: FS, o: Owners, fs': FS, o': Owners, x: nat)
    requires DirInv(fs, o) && OthersSame(fs, fs', o, x) && IsInode(o, ROOT) && x != ROOT && IsInode(o, x)
    requires Cur(fs, x).linkcount == 0 && !IsInode(o', x)
    requires forall j :: j != x ==> (IsInode(o', j) <==> IsInode(o, j))
    requires forall j :: j != x && j in fs.vn ==> j in fs'.vn
    ensures DirInv(fs', o') && FilesKept(fs, o, fs', o') && DirOf(fs') == DirOf(fs)
  {
    hide Cur, FileBlock, IsInode, Dir, Content, Unique, Links;
    forall j | IsInode(o, j) && j != x
      ensures FileSame(fs, fs', j)
    {
      SameBlocksBytes(fs, fs', j);
    }
    SameContent(fs, fs', ROOT);
    forall k | Used(DirOf(fs), k)
      ensures IsInode(o', DirOf(fs)[k].ino)
    {
      LinksPositive(DirOf(fs), k);
    }
  }

  /** VOP_DECREF on an inode of a directory volume. */
  method Release(vol: Volume, ino: nat)
    requires vol.Valid() && DirInv(vol.View(), vol.owners) && ino in vol.vnodes
    modifies vol, vol.freemap.v
    ensures vol.Valid() && DirInv(vol.View(), vol.owners) && DirOf(vol.View()) == DirOf(old(vol.View()))
    ensures FilesKept(old(vol.View()), old(vol.owners), vol.View(), vol.owners)
    ensures forall j :: j != ino ==>
              (j in vol.vnodes <==> j in old(vol.vnodes)) && (j in vol.vnodes ==> vol.vnodes[j] == old(vol.vnodes)[j])
    ensures ino in vol.vnodes <==> old(vol.vnodes[ino]).refs > 1
    ensures ino in vol.vnodes ==> vol.vnodes[ino] == old(vol.vnodes[ino]).(refs := old(vol.vnodes[ino]).refs - 1)
    ensures forall j :: j != ino ==> (IsInode(vol.owners, j) <==> IsInode(old(vol.owners), j))
    ensures IsInode(vol.owners, ino) <==> !(old(vol.vnodes[ino]).refs == 1 && old(vol.vnodes[ino]).inode.linkcount == 0)
    ensures |vol.disk| == old(|vol.disk|) && vol.View().used <= old(vol.View()).used
    ensures IsInode(vol.owners, ino) ==> vol.View().used == old(vol.View()).used
    ensures !IsInode(vol.owners, ino) && NoBlocks(old(vol.vnodes[ino]).inode) ==>
              vol.View().used == old(vol.View()).used - {ino}
  {
    hide MapSaved, Inv, FileBlock, Dir, Content, Unique, Links, IsInode, DirShape, FilesKept, OthersSame, SameFiles;
    hide DecodeInode;
    ghost var fs, o := vol.View(), vol.owners;
    LoadedVnode(fs, o, ino);
    RootInode(fs, o);
    vol.Decref(ino);
    if old(vol.vnodes[ino]).refs == 1 && old(vol.vnodes[ino]).inode.linkcount == 0 {
      ErasedView(fs, o, vol.View(), vol.owners, ino);
    } else {
      SameView(fs, o, vol.View(), vol.owners);
    }
  }

  /** sfs_lookonce, sfs_lookup: takes a reference on the named file. The zero link count panic
      cannot happen. */
  method LookOnce(vol: Volume, name: Name) returns (err: Errno, ino: u32, slot: nat)
    requires Ready(vol)
    modifies vol, vol.freemap.v
    ensures Ready(vol) && vol.owners == old(vol.owners) && DirOf(vol.View()) == DirOf(old(vol.View()))
    ensures FilesKept(old(vol.View()), old(vol.owners), vol.View(), vol.owners)
    ensures err == EOK || (err == ENOENT && vol.View() == old(vol.View()))
    ensures err == ENOENT <==> name !in NameMap(vol.View())
    ensures err == EOK ==>
              var d := DirOf(vol.View());
              && Used(d, slot) && d[slot].name == name && d[slot].ino == ino
              && ino in vol.vnodes && vol.vnodes[ino].inode == Cur(old(vol.View()), ino)
              && vol.vnodes[ino].inode.linkcount > 0
              && vol.vnodes[ino].refs == (if ino in old(vol.vnodes) then old(vol.vnodes)[ino].refs else 0) + 1
              && (forall j :: j != ino ==>
                    && (j in vol.vnodes <==> j in old(vol.vnodes))
                    && (j in vol.vnodes ==> vol.vnodes[j] == old(vol.vnodes)[j]))
              && Opened(old(vol.View()), vol.View(), ino)
    ensures |vol.disk| == old(|vol.disk|) && vol.View().used == old(vol.View()).used
  {
    hide MapSaved, Inv, FileBlock, Dir, Content, Unique, Links, IsInode, SameFiles, DecodeInode, AsMap;
    ghost var fs, o := vol.View(), vol.owners;
    RootInode(fs, o);
    InMap(DirOf(fs), name);
    var empty;
    err, ino, slot, empty := FindName(vol, name);
    KeptRefl(fs, o);
    if err != EOK {
      return;
    }
    LinksPositive(DirOf(fs), slot);
    vol.LoadVnode(ino);
    SameView(fs, o, vol.View(), vol.owners);
    if vol.vnodes[ino].inode.linkcount == 0 {
      assert false;   // panic: link count is 0
    }
  }

  lemma KeptRefl(fs: FS, o: Owners)
    ensures FilesKept(fs, o, fs, o) && SameInodes(o, o) && SameTable(fs, fs)
  {
  }

  lemma KeptTrans(fs: FS, o: Owners, fs1: FS, o1: Owners, fs2: FS, o2: Owners)
    requires FilesKept(fs, o, fs1, o1) && FilesKept(fs1, o1, fs2, o2)
    requires forall j :: IsInode(o, j) && IsInode(o2, j) ==> IsInode(o1, j)
    ensures FilesKept(fs, o, fs2, o2)
  {
    hide Cur, FileByte, IsInode;
  }

  /** sfs_dir_unlink followed by the lowered link count: the middle of sfs_remove, and the
      second half of sfs_rename. */
  method Unlink(vol: Volume, slot: nat, ino: u32)
    requires Ready(vol) && ino in vol.vnodes
    requires Used(DirOf(vol.View()), slot) && DirOf(vol.View())[slot].ino == ino
    modifies vol, vol.freemap.v
    ensures Ready(vol) && SameInodes(old(vol.owners), vol.owners) && SameTable(old(vol.View()), vol.View())
    ensures FilesKept(old(vol.View()), old(vol.owners), vol.View(), vol.owners)
    ensures NameMap(vol.View()) == NameMap(old(vol.View())) - {DirOf(old(vol.View()))[slot].name}
    ensures ino in vol.vnodes && vol.vnodes[ino].inode.linkcount == old(vol.vnodes[ino]).inode.linkcount - 1
    ensures |vol.disk| == old(|vol.disk|) && vol.View().used == old(vol.View()).used
  {
    hide Allocs;
    hide MapSaved, Inv, Cur, FileByte, Dir, Content, Unique, AsMap, Links, LinksOk, FilesOk, IsInode;
    ghost var fs, o := vol.View(), vol.owners;
    LoadedVnode(fs, o, ino);
    var err := WriteDir(vol, FreeEntry, slot);
    ghost var fs1 := vol.View();
    LoadedVnode(fs1, vol.owners, ino);
    NamedPositive(fs, o, fs1, vol.owners, DirOf(fs), slot);
    UnlinkDone(fs, o, fs1, vol.owners, DirOf(fs), slot, ino, fs1.vn[ino].inode.linkcount - 1);
    vol.vnodes := vol.vnodes[ino := vol.vnodes[ino].(
                    inode := vol.vnodes[ino].inode.(linkcount := vol.vnodes[ino].inode.linkcount - 1), dirty := true)];
    assert vol.View() == Relinked(fs1, ino, fs1.vn[ino].inode.linkcount - 1);
    LoadedVnode(vol.View(), vol.owners, ino);
  }

  /** sfs_remove: deletes the name. The inode goes with it when this was its last link and
      nobody had it open. */
  method Remove(vol: Volume, name: Name) returns (err: Errno)
    requires Ready(vol)
    modifies vol, vol.freemap.v
    ensures Ready(vol) && SameTable(old(vol.View()), vol.View())
    ensures FilesKept(old(vol.View()), old(vol.owners), vol.View(), vol.owners)
    ensures var m := NameMap(old(vol.View()));
            && (err == EOK || err == ENOENT) && (err == EOK <==> name in m)
            && NameMap(vol.View()) == m - {name}
            && (forall j :: IsInode(vol.owners, j) <==>
                  IsInode(old(vol.owners), j) &&
                  !(name in m && j == m[name] && Cur(old(vol.View()), j).linkcount == 1 && j !in old(vol.vnodes)))
    ensures Frees(old(vol.View()), vol.View()) && (err == ENOENT ==> vol.View() == old(vol.View()))
  {
    hide MapSaved, Inv, Cur, FileByte, Dir, Content, Unique, AsMap, Links, LinksOk, FilesOk, IsInode, FilesKept;
    hide DirInv, NameMap, DirShape;
    ghost var fs, o := vol.View(), vol.owners;
    KeptRefl(fs, o);
    var ino, slot;
    err, ino, slot := LookOnce(vol, name);
    if err != EOK {
      return;
    }
    ghost var fs1, o1 := vol.View(), vol.owners;
    NamedInode(fs, o, slot);
    LoadedRefs(fs, o);
    SameNames(fs, fs1);
    Unlink(vol, slot, ino);
    ghost var fs2, o2 := vol.View(), vol.owners;
    LoadedVnode(fs2, o2, ino);
    Release(vol, ino);
    TableRestored(fs, o, fs1, fs2, vol.View(), ino);
    SameNames(fs2, vol.View());
    KeptTransSame(fs, o, fs1, o1, fs2, o2);
    KeptTransSame(fs, o, fs2, o2, vol.View(), vol.owners);
  }

  lemma NamedInode(fs: FS, o: Owners, slot: nat)
    requires DirInv(fs, o) && Used(DirOf(fs), slot)
    ensures var e := DirOf(fs)[slot];
            IsInode(o, e.ino) && e.name in NameMap(fs) && NameMap(fs)[e.name] == e.ino
  {
    hide AsMap, Unique, Links, Dir, Content;
    MapAt(DirOf(fs), slot);
  }

  lemma LoadedRefs(fs: FS, o: Owners)
    requires Inv(fs, o)
    ensures forall i :: i in fs.vn ==> fs.vn[i].refs > 0 && Cur(fs, i) == fs.vn[i].inode
  {
  }

  lemma SameInodesTrans(o: Owners, o1: Owners, o2: Owners)
    requires SameInodes(o, o1) && SameInodes(o1, o2)
    ensures SameInodes(o, o2)
  {
  }

  lemma KeptTransSame(fs: FS, o: Owners, fs1: FS, o1: Owners, fs2: FS, o2: Owners)
    requires FilesKept(fs, o, fs1, o1) && FilesKept(fs1, o1, fs2, o2) && SameInodes(o, o1)
    ensures FilesKept(fs, o, fs2, o2)
  {
    hide Cur, FileByte, IsInode;
  }

  /** The core of sfs_rename, on the loaded file: link it under the new name, then clear the
      old entry. Undoing the link is never needed, because a slot in use can always be
      overwritten. */
  method Move(vol: Volume, n1: Name, n2: Name, ino: u32, slot1: nat) returns (err: Errno)
    requires Ready(vol) && ino in vol.vnodes && ino != ROOT
    requires Used(DirOf(vol.View()), slot1) && DirOf(vol.View())[slot1] == Entry(ino, n1)
    modifies vol, vol.freemap.v
    ensures Ready(vol) && SameTable(old(vol.View()), vol.View()) && SameInodes(old(vol.owners), vol.owners)
    ensures FilesKept(old(vol.View()), old(vol.owners), vol.View(), vol.owners)
    ensures ino in vol.vnodes && vol.vnodes[ino].inode.linkcount == old(vol.vnodes[ino]).inode.linkcount
    ensures var m := NameMap(old(vol.View()));
            && (err == EEXIST <==> n2 in m)
            && (err == ENAMETOOLONG <==> n2 !in m && |n2| >= NAMELEN)
            && (err == EINVAL <==> n2 !in m && |n2| < NAMELEN && |m| == DIRSLOTS)
            && NameMap(vol.View()) == if err == EOK then m[n2 := ino] - {n1} else m
    ensures err == ENOSPC ==> Full(vol.View())
    ensures Allocs(old(vol.View()), vol.View(), if err == EOK then 2 else 1)
    ensures err == EOK || err == EEXIST || err == ENAMETOOLONG || err == EINVAL || err == ENOSPC
  {
    hide MapSaved, Inv, Cur, FileByte, Dir, Content, Unique, AsMap, Links, LinksOk, FilesOk, IsInode, FilesKept;
    hide SameInodes, NameMap, SameTable;
    CheckRegular(vol, ino);
    ghost var fs, o := vol.View(), vol.owners;
    err := Link(vol, n2, ino);
    if err == EOK {
      ghost var fs1, o1 := vol.View(), vol.owners;
      assert EntriesStay(DirOf(fs), DirOf(fs1));
      Unlink(vol, slot1, ino);
      AllocsNone(fs1, vol.View());
      AllocsTwice(fs, fs1, vol.View(), 2, 0);
      KeptTransSame(fs, o, fs1, o1, vol.View(), vol.owners);
      SameInodesTrans(o, o1, vol.owners);
      SameTableTrans(fs, fs1, vol.View());
    }
  }

  lemma SameFree(fs: FS, fs': FS)
    ensures |fs'.disk| == |fs.disk| && fs'.used == fs.used ==> FreeOf(fs') == FreeOf(fs)
  {
  }

  lemma SameTableTrans(fs: FS, fs1: FS, fs2: FS)
    requires SameTable(fs, fs1) && SameTable(fs1, fs2)
    ensures SameTable(fs, fs2)
  {
  }

  /** sfs_rename */
  method Rename(vol: Volume, n1: Name, n2: Name) returns (err: Errno)
    requires Ready(vol)
    requires n1 in NameMap(vol.View()) ==> NameMap(vol.View())[n1] != ROOT   // asserted: a regular file
    modifies vol, vol.freemap.v
    ensures Ready(vol) && SameTable(old(vol.View()), vol.View()) && SameInodes(old(vol.owners), vol.owners)
    ensures FilesKept(old(vol.View()), old(vol.owners), vol.View(), vol.owners)
    ensures var m := NameMap(old(vol.View()));
            && (err == ENOENT <==> n1 !in m)
            && (err == EEXIST <==> n1 in m && n2 in m)
            && (err == ENAMETOOLONG <==> n1 in m && n2 !in m && |n2| >= NAMELEN)
            && (err == EINVAL <==> n1 in m && n2 !in m && |n2| < NAMELEN && |m| == DIRSLOTS)
            && (err == EOK ==> n1 in m)
            && NameMap(vol.View()) == if err == EOK then (m - {n1})[n2 := m[n1]] else m
    ensures err == ENOSPC ==> Full(vol.View())
    ensures err == ENOENT ==> vol.View() == old(vol.View())
    ensures Allocs(old(vol.View()), vol.View(), if err == EOK then 2 else 1)
    ensures err == EOK || err == ENOENT || err == EEXIST || err == ENAMETOOLONG || err == EINVAL || err == ENOSPC
  {
    hide MapSaved, Inv, Cur, FileByte, Dir, Content, Unique, AsMap, Links, IsInode, FilesKept, DirInv, NameMap;
    hide SameInodes, Opened, FreeOf;
    ghost var fs, o := vol.View(), vol.owners;
    KeptRefl(fs, o);
    var ino, slot1;
    err, ino, slot1 := LookOnce(vol, n1);
    if err != EOK {
      return;
    }
    ghost var fs1, o1 := vol.View(), vol.owners;
    NamedInode(fs, o, slot1);
    SameNames(fs, fs1);
    LoadedRefs(fs, o);
    err := Move(vol, n1, n2, ino, slot1);
    ghost var fs2, o2 := vol.View(), vol.owners;
    SameFree(fs, fs1);
    KeptTransSame(fs, o, fs1, o1, fs2, o2);
    LoadedVnode(fs2, o2, ino);
    Release(vol, ino);
    SameNames(fs2, vol.View());
    SameFree(fs2, vol.View());
    TableRestored(fs, o, fs1, fs2, vol.View(), ino);
    InodesRestored(o, o2, vol.owners, ino);
    KeptTransSame(fs, o, fs2, o2, vol.View(), vol.owners);
    assert err == EOK ==> n1 != n2;
  }

  /** Loading a file and releasing it again leaves the vnode table as it was. */
  lemma TableRestored(fs: FS, o: Owners, fs1: FS, fs2: FS, fs3: FS, i: nat)
    requires Inv(fs, o) && i in fs1.vn && i in fs2.vn && SameTable(fs1, fs2)
    requires fs1.vn[i].refs == (if i in fs.vn then fs.vn[i].refs else 0) + 1
    requires forall j :: j != i ==> (j in fs1.vn <==> j in fs.vn) && (j in fs1.vn ==> fs1.vn[j] == fs.vn[j])
    requires forall j :: j != i ==> (j in fs3.vn <==> j in fs2.vn) && (j in fs3.vn ==> fs3.vn[j] == fs2.vn[j])
    requires i in fs3.vn <==> fs2.vn[i].refs > 1
    requires i in fs3.vn ==> fs3.vn[i].refs == fs2.vn[i].refs - 1
    ensures SameTable(fs, fs3)
  {
    hide Inv, Cur;
    LoadedRefs(fs, o);
    assert forall j :: j in fs3.vn <==> j in fs.vn;
  }

  lemma InodesRestored(o: Owners, o2: Owners, o3: Owners, i: nat)
    requires SameInodes(o, o2) && IsInode(o, i) && IsInode(o3, i)
    requires forall j :: j != i ==> (IsInode(o3, j) <==> IsInode(o2, j))
    ensures SameInodes(o, o3)
  {
    hide IsInode;
  }

  lemma SameNames(fs: FS, fs': FS)
    requires DirOf(fs') == DirOf(fs)
    ensures NameMap(fs') == NameMap(fs)
  {
  }

  /** The assertion in sfs_rename that the file is a regular one. */
  method CheckRegular(vol: Volume, ino: nat)
    requires Ready(vol) && ino in vol.vnodes && ino != ROOT
    ensures vol.vnodes[ino].inode.itype == TFILE
  {
    hide MapSaved, Inv, LinksOk, DirShape;
    LoadedVnode(vol.View(), vol.owners, ino);
  }

  /** A new inode has no links and no entry names it. */
  lemma NewInodeDir(fs: FS, o: Owners, fs': FS, i: u32)
    requires DirInv(fs, o) && i !in o && IsInode(o, ROOT) && i != ROOT && i != 0
    requires SameFiles(fs, fs', o) && fs'.vn == fs.vn[i := Vnode(ZeroInode.(itype := TFILE), true, 1)]
    ensures DirInv(fs', o[i := InodeOf(i)]) && FilesKept(fs, o, fs', o[i := InodeOf(i)]) && DirOf(fs') == DirOf(fs)
  {
    hide FileBlock, Dir, Content, Unique, Links, DecodeInode;
    var o' := o[i := InodeOf(i)];
    assert forall j :: IsInode(o', j) <==> j == i || IsInode(o, j);
    forall j | IsInode(o, j)
      ensures FileSame(fs, fs', j)
    {
      SameBlocksBytes(fs, fs', j);
    }
    SameContent(fs, fs', ROOT);
    forall k | Used(DirOf(fs), k)
      ensures DirOf(fs)[k].ino != i
    {
      assert IsInode(o, DirOf(fs)[k].ino);
    }
    Unnamed(DirOf(fs), i);
  }

  lemma {:induction false} Unnamed(d: seq<Entry>, i: nat)
    requires forall k :: Used(d, k) ==> d[k].ino != i
    requires i != 0
    ensures Links(d, i) == 0
  {
    if d != [] {
      var d' := d[..|d| - 1];
      assert forall k :: Used(d', k) ==> Used(d, k);
      assert Used(d, |d| - 1) || d[|d| - 1].ino == 0;
      Unnamed(d', i);
    }
  }

  /** sfs_makeobj within a directory volume. */
  method NewFile(vol: Volume) returns (err: Errno, ino: u32)
    requires Ready(vol)
    modifies vol, vol.freemap.v
    ensures Ready(vol) && FilesKept(old(vol.View()), old(vol.owners), vol.View(), vol.owners)
    ensures NameMap(vol.View()) == NameMap(old(vol.View()))
    ensures err == EOK || err == ENOSPC
    ensures err == ENOSPC ==> Full(vol.View()) && vol.View() == old(vol.View()) && vol.owners == old(vol.owners)
    ensures err == EOK ==>
              && vol.owners == old(vol.owners)[ino := InodeOf(ino)]
              && ino !in old(vol.owners) && ino !in old(vol.vnodes) && ino != ROOT
              && vol.vnodes == old(vol.vnodes)[ino := Vnode(ZeroInode.(itype := TFILE), true, 1)]
              && |vol.disk| == old(|vol.disk|) && ino < |vol.disk| && ino !in old(vol.View()).used
              && vol.View().used == old(vol.View()).used + {ino}
  {
    hide MapSaved, Inv, FileBlock, FileByte, Dir, Unique, Links, DecodeInode, AsMap, LinksOk, FilesOk, NameMap;
    hide DirShape, SameFiles, FilesKept;
    ghost var fs, o := vol.View(), vol.owners;
    RootInode(fs, o);
    RootUsed(fs, o);
    KeptRefl(fs, o);
    err, ino := vol.MakeObj(TFILE);
    if err == EOK {
      NewInodeDir(fs, o, vol.View(), ino);
      SameNames(fs, vol.View());
    }
  }

  /** One more reference to i; all other references are as they were. */
  ghost predicate Opened(fs: FS, fs': FS, i: nat) {
    && fs'.vn.Keys == fs.vn.Keys + {i} && fs'.vn[i].refs == (if i in fs.vn then fs.vn[i].refs else 0) + 1
    && (forall j :: j in fs.vn && j != i ==> fs'.vn[j].refs == fs.vn[j].refs)
  }

  lemma AllocsMore(fs: FS, fs': FS, m: nat, n: nat)
    requires Allocs(fs, fs', m) && m <= n
    ensures Allocs(fs, fs', n)
  {
  }

  /** A new inode, and then what a link allocates. */
  lemma AllocsInode(fs: FS, fs1: FS, fs2: FS, x: nat)
    requires |fs1.disk| == |fs.disk| && x < |fs.disk| && x !in fs.used && fs1.used == fs.used + {x}
    requires Allocs(fs1, fs2, 2)
    ensures Allocs(fs, fs2, 3)
  {
    OneLess(fs, fs1, x);
  }

  /** The same for a link that failed, with the inode given back. */
  lemma AllocsBack(fs: FS, fs1: FS, fs2: FS, fs3: FS, x: nat)
    requires |fs1.disk| == |fs.disk| && x < |fs.disk| && x !in fs.used && fs1.used == fs.used + {x}
    requires Allocs(fs1, fs2, 1) && |fs3.disk| == |fs2.disk| && fs3.used == fs2.used - {x}
    ensures Allocs(fs, fs3, 1) && |FreeOf(fs3)| == |FreeOf(fs2)| + 1
  {
    OneLess(fs, fs1, x);
    OneLess(fs3, fs2, x);
  }

  /** The vnode table after a new inode was loaded. */
  lemma NewVnode(fs: FS, fs1: FS, fs2: FS, i: nat, v: Vnode)
    requires i !in fs.vn && fs1.vn == fs.vn[i := v] && v.refs == 1 && SameTable(fs1, fs2)
    ensures Opened(fs, fs2, i)
  {
  }

  /** The vnode table after a new inode was loaded and released again. */
  lemma NewVnodeGone(fs: FS, fs1: FS, fs2: FS, fs3: FS, i: nat, v: Vnode)
    requires i !in fs.vn && fs1.vn == fs.vn[i := v] && SameTable(fs1, fs2) && i !in fs3.vn
    requires forall j :: j != i ==> (j in fs3.vn <==> j in fs2.vn) && (j in fs3.vn ==> fs3.vn[j] == fs2.vn[j])
    ensures SameTable(fs, fs3)
  {
    assert forall j :: j in fs3.vn <==> j in fs.vn;
  }

  /** The part of sfs_creat for a name that does not exist. */
  method CreateNew(vol: Volume, name: Name) returns (err: Errno, ino: u32)
    requires Ready(vol) && name !in NameMap(vol.View())
    modifies vol, vol.freemap.v
    ensures Ready(vol) && FilesKept(old(vol.View()), old(vol.owners), vol.View(), vol.owners)
    ensures err == EOK ==>
              && NameMap(vol.View()) == NameMap(old(vol.View()))[name := ino]
              && !IsInode(old(vol.owners), ino) && IsInode(vol.owners, ino)
              && (forall j :: j != ino ==> (IsInode(vol.owners, j) <==> IsInode(old(vol.owners), j)))
              && ino != ROOT && Opened(old(vol.View()), vol.View(), ino)
              && Content(vol.View(), ino) == [] && ZeroTail(vol.View(), ino)
              && Cur(vol.View(), ino).itype == 1
    ensures err != EOK ==>
              && NameMap(vol.View()) == NameMap(old(vol.View()))
              && SameInodes(old(vol.owners), vol.owners) && SameTable(old(vol.View()), vol.View())
    ensures err == ENOSPC ==> |FreeOf(vol.View())| <= 1
    ensures Allocs(old(vol.View()), vol.View(), if err == EOK then 3 else 1)
    ensures err == EOK || err == ENAMETOOLONG || err == EINVAL || err == ENOSPC
    ensures |name| >= NAMELEN ==> err == ENAMETOOLONG || err == ENOSPC
    ensures err == ENAMETOOLONG ==> |name| >= NAMELEN
    ensures |name| < NAMELEN && |NameMap(old(vol.View()))| == DIRSLOTS ==> err == EINVAL || err == ENOSPC
    ensures err == EINVAL ==> |name| < NAMELEN && |NameMap(old(vol.View()))| == DIRSLOTS
  {
    hide MapSaved, Inv, FileBlock, FileByte, Dir, Unique, Links, Cur, AsMap, NameMap, Content, EntriesStay;
    hide FilesKept, DirInv, ZeroTail;
    hide Full, Allocs, Opened, SameTable, FreeOf, DirOf, DirFull;
    ghost var fs, o := vol.View(), vol.owners;
    NoChange(fs, o);
    err, ino := NewFile(vol);
    AllocsNone(fs, fs);
    if err != EOK {
      FreeNone(fs);
      AllocsMore(fs, fs, 0, 1);
      return;
    }
    ghost var fs1, o1 := vol.View(), vol.owners;
    LoadedVnode(fs1, o1, ino);
    err := Link(vol, name, ino);
    ghost var fs2, o2 := vol.View(), vol.owners;
    KeptTrans(fs, o, fs1, o1, fs2, o2);
    LoadedVnode(fs2, o2, ino);
    NewVnode(fs, fs1, fs2, ino, fs1.vn[ino]);
    if err != EOK {
      Release(vol, ino);
      SameNames(fs2, vol.View());
      KeptTrans(fs, o, fs2, o2, vol.View(), vol.owners);
      NewVnodeGone(fs, fs1, fs2, vol.View(), ino, fs1.vn[ino]);
      FreeNone(fs2);
      AllocsBack(fs, fs1, fs2, vol.View(), ino);
      return;
    }
    AllocsInode(fs, fs1, fs2, ino);
    NewlyEmpty(fs1, o1, fs2, o2, ino);
    RegularFile(fs2, o2, ino);
  }

  lemma RegularFile(fs: FS, o: Owners, i: nat)
    requires DirInv(fs, o) && IsInode(o, i) && i != ROOT
    ensures Cur(fs, i).itype == 1
  {
  }

  /** sfs_creat: opens an existing file unless excl is set, creates an empty one otherwise. */
  method Create(vol: Volume, name: Name, excl: bool) returns (err: Errno, ino: u32)
    requires Ready(vol)
    modifies vol, vol.freemap.v
    ensures Ready(vol) && FilesKept(old(vol.View()), old(vol.owners), vol.View(), vol.owners)
    ensures var m, m' := NameMap(old(vol.View())), NameMap(vol.View());
            && (err == EEXIST <==> name in m && excl)
            && (err == EOK ==>
                  m' == m[name := ino] && IsInode(vol.owners, ino) && Opened(old(vol.View()), vol.View(), ino))
            && (err != EOK ==>
                  m' == m && SameInodes(old(vol.owners), vol.owners) && SameTable(old(vol.View()), vol.View()))
            && (err == ENAMETOOLONG ==> name !in m && |name| >= NAMELEN)
            && (err == EINVAL ==> name !in m && |name| < NAMELEN && |m| == DIRSLOTS)
            && (name !in m && (|name| >= NAMELEN || |m| == DIRSLOTS) ==> err != EOK)
            && (err == ENOSPC ==> name !in m && |FreeOf(vol.View())| <= 1)
            && Allocs(old(vol.View()), vol.View(), if err == EOK then 3 else 1)
            && (name in m ==> vol.View().used == old(vol.View()).used)
            && (err == EOK || err == EEXIST || err == ENAMETOOLONG || err == EINVAL || err == ENOSPC)
            && (err == EOK && name in m ==> ino == m[name] && vol.owners == old(vol.owners))
            && (err == EOK && name !in m ==>
                  && ino != ROOT && !IsInode(old(vol.owners), ino)
                  && Content(vol.View(), ino) == [] && ZeroTail(vol.View(), ino)
                  && (forall j :: j != ino ==> (IsInode(vol.owners, j) <==> IsInode(old(vol.owners), j))))
  {
    hide MapSaved, Inv, FileBlock, FileByte, Dir, Unique, Links, Cur, AsMap, NameMap, Content, EntriesStay;
    hide FilesKept, LinksOk, FilesOk, FreeOf, Allocs, Opened, SameTable;
    ghost var fs, o := vol.View(), vol.owners;
    KeptRefl(fs, o);
    NoChange(fs, o);
    var e, i, s, empty := FindName(vol, name);
    FoundInMap(fs, name);
    AllocsNone(fs, fs);
    AllocsMore(fs, fs, 0, 1);
    if e == EOK && excl {
      return EEXIST, 0;
    }
    if e == EOK {
      NamedInode(fs, o, s);
      OpenNamed(vol, i);
      SameNames(fs, vol.View());
      AllocsNone(fs, vol.View());
      AllocsMore(fs, vol.View(), 0, 3);
      return EOK, i;
    }
    err, ino := CreateNew(vol, name);
  }

  lemma FoundInMap(fs: FS, name: Name)
    requires DirShape(fs)
    ensures name in NameMap(fs) <==> HasName(DirOf(fs), name)
  {
    hide AsMap, Unique, Dir, Content;
    InMap(DirOf(fs), name);
  }

  /** sfs_loadvnode within a directory volume. */
  method OpenNamed(vol: Volume, ino: nat)
    requires Ready(vol) && IsInode(vol.owners, ino)
    modifies vol`vnodes
    ensures Ready(vol) && Opened(old(vol.View()), vol.View(), ino) && DirOf(vol.View()) == DirOf(old(vol.View()))
    ensures vol.View().used == old(vol.View()).used
    ensures FilesKept(old(vol.View()), vol.owners, vol.View(), vol.owners)
  {
    hide MapSaved, Inv, FileBlock, Dir, Content, Unique, Links, SameFiles, DecodeInode, AsMap;
    ghost var fs := vol.View();
    RootInode(fs, vol.owners);
    KeptRefl(fs, vol.owners);
    vol.LoadVnode(ino);
    SameView(fs, vol.owners, vol.View(), vol.owners);
  }

  lemma NewlyEmpty(fs1: FS, o1: Owners, fs2: FS, o2: Owners, i: nat)
    requires FilesKept(fs1, o1, fs2, o2) && IsInode(o1, i) && IsInode(o2, i) && i != ROOT
    requires i in fs1.vn && NoBlocks(fs1.vn[i].inode) && fs1.vn[i].inode.size == 0
    ensures Content(fs2, i) == [] && ZeroTail(fs2, i)
  {
    hide FileByte;
    assert FileSame(fs1, fs2, i);
    forall p: nat
      ensures FileByte(fs1, i, p) == 0
    {
      NoBlocksByte(fs1, i, p);
    }
  }

  lemma NoBlocksByte(fs: FS, i: nat, p: nat)
    requires i in fs.vn && NoBlocks(fs.vn[i].inode)
    ensures FileByte(fs, i, p) == 0
  {
    hide Cur;
    NoBlocksRef(fs, i, DataSlot(i, p / 512));
  }

  lemma RootUsed(fs: FS, o: Owners)
    requires Inv(fs, o)
    ensures ROOT in fs.used && (forall i :: i in fs.vn ==> i in o)
  {
    hide Ref, Clean;
  }
}
