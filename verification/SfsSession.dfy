/** Whole runs of a volume: mksfs, mount, and then any sequence of operations. */
module SfsSession {
  import opened Codec
  import opened SfsModel
  import opened SfsSteps
  import opened SfsTruncate
  import opened SfsBytes
  import opened SfsFiles
  import opened SfsEntries
  import opened SfsVolume
  import opened SfsDirectory
  import opened SfsAbstract
  import opened Uio
  import Mksfs

  /** Everything outside file x is as it was. */
  ghost predicate OnlyFile(fs: FS, o: Owners, fs': FS, o': Owners, x: nat) {
    && SameInodes(o, o') && SameTable(fs, fs') && NameMap(fs') == NameMap(fs)
    && (forall j :: IsInode(o, j) && j != x ==> FileSame(fs, fs', j))
  }

  /** A change of one regular file's bytes or size keeps the directory invariant. */
  lemma FileChanged(fs: FS, o: Owners, fs': FS, o': Owners, x: nat)
    requires DirInv(fs, o) && x != ROOT && IsInode(o, ROOT) && SameInodes(o, o') && SameTable(fs, fs')
    requires forall j :: IsInode(o, j) && j != x ==> FileSame(fs, fs', j)
    requires forall j :: IsInode(o, j) ==>
              Cur(fs', j).linkcount == Cur(fs, j).linkcount && Cur(fs', j).itype == Cur(fs, j).itype
    ensures DirInv(fs', o') && OnlyFile(fs, o, fs', o', x)
  {
    hide Cur, FileByte, IsInode, Dir, Content, Unique, Links, AsMap;
    SameContent(fs, fs', ROOT);
  }

  lemma WrittenElsewhere(fs: FS, fs': FS, o: Owners, x: nat, off: nat, d: seq<byte>)
    requires Written(fs, fs', o, x, off, d)
    ensures forall j :: IsInode(o, j) && j != x ==> FileSame(fs, fs', j)
    ensures forall j :: IsInode(o, j) ==>
              Cur(fs', j).linkcount == Cur(fs, j).linkcount && Cur(fs', j).itype == Cur(fs, j).itype
  {
    hide Cur, FileByte, IsInode;
  }

  // ---------------------------------------------------------------- the abstract state

  ghost function FileOf(fs: FS, i: nat): File {
    File(Cur(fs, i).size, Bytes(fs, i, 0, MAXFILE))
  }

  ghost function FilesOf(fs: FS, o: Owners): map<nat, File> {
    map i | i in o && IsInode(o, i) && i != ROOT :: FileOf(fs, i)
  }

  ghost function OpenOf(fs: FS): map<nat, nat> {
    map i | i in fs.vn && i != ROOT :: fs.vn[i].refs
  }

  ghost function AbsOf(fs: FS, o: Owners): AbsFS {
    AbsFS(NameMap(fs), FilesOf(fs, o), OpenOf(fs), |FreeOf(fs)|)
  }

  lemma PastLargest(fs: FS, i: nat, p: nat)
    requires p >= MAXFILE
    ensures FileByte(fs, i, p) == 0
  {
    assert p / 512 >= MAXBLOCKS;
  }

  /** What a reader sees of the abstract file is the content. */
  lemma VisibleContent(fs: FS, i: nat)
    ensures Visible(FileOf(fs, i)) == Content(fs, i)
  {
    hide FileByte, Cur;
    var f := FileOf(fs, i);
    forall p: nat | p < f.size
      ensures Byte(f, p) == FileByte(fs, i, p)
    {
      if p >= MAXFILE { PastLargest(fs, i, p); }
    }
  }

  lemma SameFile(fs: FS, fs': FS, i: nat)
    requires FileSame(fs, fs', i)
    ensures FileOf(fs', i) == FileOf(fs, i)
  {
    hide FileByte, Cur;
  }

  /** A new file holds nothing. */
  lemma EmptyFileOf(fs: FS, i: nat)
    requires Content(fs, i) == [] && ZeroTail(fs, i)
    ensures FileOf(fs, i) == EmptyFile
  {
    hide FileByte, Cur;
    assert Cur(fs, i).size == |Content(fs, i)|;
  }

  lemma PutFile(fs: FS, fs': FS, o: Owners, i: nat, off: nat, d: seq<byte>)
    requires Written(fs, fs', o, i, off, d) && IsInode(o, i)
    ensures FileOf(fs', i) == Put(FileOf(fs, i), off, d)
  {
    hide FileByte, Cur;
  }

  lemma CutFile(fs: FS, o: Owners, i: nat, len: u32)
    requires Inv(fs, o) && i in fs.vn && fs.vn[i].inode.indirect < |fs.disk| && IsInode(o, i)
    ensures FileOf(Truncated(fs, i, len), i) == Trunc(FileOf(fs, i), len)
  {
    hide Inv, Truncated, FileByte, Cur, Stays;
    TruncatedBytes(fs, o, i, len);
  }

  /** Which bytes stay stored, block by block. */
  lemma CutBytes(fs: FS, o: Owners, i: nat, len: u32)
    requires Inv(fs, o) && i in fs.vn && fs.vn[i].inode.indirect < |fs.disk| && IsInode(o, i)
    ensures Cur(Truncated(fs, i, len), i).size == len
    ensures forall p: nat :: FileByte(Truncated(fs, i, len), i, p) ==
              if (if p < 7680 then p / 512 else p / 512 - 1) * 512 < len then FileByte(fs, i, p) else 0
  {
    hide Inv, Truncated, FileByte, Cur;
    TruncatedBytes(fs, o, i, len);
  }

  /** A block that could not be allocated shows as zeros. */
  lemma RoomHole(fs: FS, i: nat, p: nat)
    requires NoRoom(fs, i, p)
    ensures Hole(FileOf(fs, i), p / 512) && |FreeOf(fs)| == 0 && p < MAXFILE
  {
    hide FileBlock, Cur;
    var f, fb := FileOf(fs, i), p / 512;
    assert FreeOf(fs) == {};
    forall q | 512 * fb <= q < 512 * fb + 512
      ensures Byte(f, q) == 0
    {
      assert q / 512 == fb;
      assert FileByte(fs, i, q) == 0;
    }
  }

  lemma NoneFree(fs: FS)
    requires Full(fs)
    ensures |FreeOf(fs)| == 0
  {
    FreeNone(fs);
  }

  lemma AllocsFree(fs: FS, fs': FS, n: nat)
    requires Allocs(fs, fs', n)
    ensures |FreeOf(fs')| <= |FreeOf(fs)| <= |FreeOf(fs')| + n
  {
    SubsetSize(FreeOf(fs'), FreeOf(fs));
  }

  /** What a write may have taken from the free blocks, and when it found too few. */
  lemma WriteSpace(fs: FS, fs': FS, i: nat, off: nat, n: nat, p: nat, err: Errno)
    requires |fs'.disk| == |fs.disk| && fs.used <= fs'.used && Room(fs, i) <= Room(fs', i) + Cost(off, p, err)
    requires off <= p && (err == EOK ==> p == off + n) && (err != EOK ==> Cost(off, p, err) < Blocks(off, off + n))
    ensures Blocks(off, off + n) >= 0 && Allocs(fs, fs', Blocks(off, off + n) + 1)
    ensures err == ENOSPC && Full(fs') ==> |FreeOf(fs)| < Blocks(off, off + n) + 1
  {
    hide Room, FreeOf;
    NonNegative(off, p);
    NonNegative(off, off + n);
    RoomAllocs(fs, fs', i, Cost(off, p, err));
    FreeNone(fs');
  }

  /** A block is reserved, free or held by a slot, and only one of these. */
  lemma BlockKinds(fs: FS, o: Owners, b: nat)
    requires Inv(fs, o)
    ensures b in o ==> b < |fs.disk| && b !in FreeOf(fs) && b != 0 && !(MAPLOC <= b < MAPLOC + BitBlocks(|fs.disk|))
    ensures b in FreeOf(fs) ==> b < |fs.disk| && b != 0 && !(MAPLOC <= b < MAPLOC + BitBlocks(|fs.disk|))
    ensures b < |fs.disk| ==> b == 0 || MAPLOC <= b < MAPLOC + BitBlocks(|fs.disk|) || b in FreeOf(fs) || b in o
  {
    hide Ref, Clean, BitBlocks, BitmapSize;
    if b < |fs.disk| {
      ReservedBelow(|fs.disk|, b);
    }
  }

  /** Two sets that together are all numbers below n but 0 and those from MAPLOC to m. */
  lemma Counted(n: nat, m: nat, free: set<nat>, held: set<nat>)
    requires MAPLOC <= m <= n && free !! held
    requires forall b: nat :: b in free + held <==> b < n && b != 0 && !(MAPLOC <= b < m)
    ensures |free| + |held| + 1 + (m - MAPLOC) == n
  {
    hide Span;
    var rest := free + held;
    assert Span(0, n) == Span(0, 1) + Span(MAPLOC, m) + rest;
    assert Span(0, 1) !! Span(MAPLOC, m) && Span(0, 1) + Span(MAPLOC, m) !! rest;
  }

  /** Conservation of blocks: every block of the disk is the superblock, one of the free map, free,
      or held by exactly one slot of one inode. */
  lemma BlocksConserved(fs: FS, o: Owners)
    requires Inv(fs, o)
    ensures |FreeOf(fs)| + |o| + 1 + (|fs.disk| + 4095) / 4096 == |fs.disk|
  {
    hide Owned, Clean, BitBlocks, FreeOf, IsInode;
    var n, m := |fs.disk|, MAPLOC + BitBlocks(|fs.disk|);
    forall b: nat
      ensures b in FreeOf(fs) + o.Keys <==> b < n && b != 0 && !(MAPLOC <= b < m)
    {
      BlockKinds(fs, o, b);
    }
    forall b: nat | b in o.Keys
      ensures b !in FreeOf(fs)
    {
      BlockKinds(fs, o, b);
    }
    Counted(n, m, FreeOf(fs), o.Keys);
    MapBlocks(n);
    assert |o.Keys| == |o|;
  }

  lemma MapBlocks(n: nat)
    ensures BitBlocks(n) == (n + 4095) / 4096
  {
  }

  function Span(lo: nat, hi: nat): (s: set<nat>)
    requires lo <= hi
    ensures forall b :: b in s <==> lo <= b < hi
    ensures |s| == hi - lo
    decreases hi
  {
    if lo == hi then {} else Span(lo, hi - 1) + {hi - 1}
  }

  lemma MapSpan(n: nat)
    ensures n <= BitmapSize(n)
  {
  }

  lemma ReservedBelow(n: nat, b: nat)
    requires b < n
    ensures b in Reserved(n) <==> b == 0 || MAPLOC <= b < MAPLOC + BitBlocks(n)
    ensures b in Reserved(n) <==> IsReserved(n, b)
  {
    MapSpan(n);
  }

  // ---------------------------------------------------------------- reading, writing, truncating

  /** sfs_write on an open regular file: a prefix of the data was stored, all of it on success.
      The file is the old byte sequence overlaid with it exactly when the write jumps over no
      stale bytes. */
  method Write(vol: Volume, ino: nat, uio: Uio) returns (err: Errno)
    requires Ready(vol) && ino in vol.vnodes && ino != ROOT
    requires uio.Valid() && vol.Apart(uio) && uio.rw == UioWrite && uio.offset + uio.resid < 0x8000_0000
    modifies vol, vol.freemap.v, uio, uio.mem
    ensures Ready(vol) && uio.Valid() && old(uio.offset) <= uio.offset
    ensures uio.Advanced(old(uio.base), old(uio.len), old(uio.offset), old(uio.resid), uio.offset - old(uio.offset))
    ensures uio.mem[..] == old(uio.mem[..]) && (err == EOK ==> uio.resid == 0)
    ensures old(uio.offset) < uio.offset ==> uio.offset <= MAXFILE
    ensures err == EOK || (err == EINVAL && uio.offset >= MAXFILE) ||
            (err == ENOSPC && NoRoom(vol.View(), ino, uio.offset))
    ensures err != EOK ==> StoppedAt(old(uio.offset), old(uio.resid), uio.offset)
    ensures var need := Blocks(old(uio.offset), old(uio.offset) + old(uio.resid)) + 1;
            && need >= 0 && Allocs(old(vol.View()), vol.View(), need)
            && (err == ENOSPC ==> |FreeOf(old(vol.View()))| < need)
    ensures Grew(old(vol.View()), vol.View(), old(vol.owners), ino, old(uio.offset), old(uio.offset) + old(uio.resid))
    ensures OnlyFile(old(vol.View()), old(vol.owners), vol.View(), vol.owners, ino)
    ensures var d := uio.mem[..][old(uio.base)..uio.base];
            && FileOf(vol.View(), ino) == Put(FileOf(old(vol.View()), ino), old(uio.offset), d)
            && (Content(vol.View(), ino) == Overlay(Content(old(vol.View()), ino), old(uio.offset), d)
                <==> ZeroGap(old(vol.View()), ino, old(uio.offset)))
    ensures ZeroTail(old(vol.View()), ino) ==>
              ZeroGap(old(vol.View()), ino, old(uio.offset)) && ZeroTail(vol.View(), ino)
  {
    hide MapSaved, Inv, Cur, DirInv, Content, Written, ZeroGap, ZeroTail, Full, SameInodes, SameTable, OnlyFile;
    hide FileSame;
    hide NoRoom, OnlyVnode, Overlay, Put, FileOf, StoppedAt, Room, Cost, Blocks, InPlace, Allocs, FreeOf, Grew;
    ghost var fs, o := vol.View(), vol.owners;
    RootInode(fs, o);
    LoadedVnode(fs, o, ino);
    SameTableKeys(fs, ROOT);
    err := vol.Io(ino, uio);
    ghost var d := uio.mem[..][old(uio.base)..uio.base];
    WrittenElsewhere(fs, vol.View(), o, ino, old(uio.offset), d);
    FileChanged(fs, o, vol.View(), vol.owners, ino);
    WrittenContent(fs, vol.View(), o, ino, old(uio.offset), d);
    PutFile(fs, vol.View(), o, ino, old(uio.offset), d);
    WriteSpace(fs, vol.View(), ino, old(uio.offset), old(uio.resid), uio.offset, err);
    if err == ENOSPC {
      NoRoomFull(vol.View(), ino, uio.offset);
    }
  }

  /** Memory mem' is mem with bytes off up to end of c put in from base on. */
  predicate Copied(mem: seq<byte>, mem': seq<byte>, base: nat, c: seq<byte>, off: nat, end: nat) {
    off <= end <= |c| && base + (end - off) <= |mem| && mem' == Splice(mem, base, c[off..end])
  }

  /** sfs_read: delivers the bytes of the file from the offset to the end of the request or of
      the file, and changes nothing. A read of something fails exactly when that range goes past
      the largest file size, with the bytes up to there delivered. */
  method Read(vol: Volume, ino: nat, uio: Uio) returns (err: Errno)
    requires Ready(vol) && ino in vol.vnodes
    requires uio.Valid() && vol.Apart(uio) && uio.rw == UioRead && uio.offset + uio.resid < 0x8000_0000
    modifies vol, vol.freemap.v, uio, uio.mem
    ensures Ready(vol) && vol.View() == old(vol.View()) && vol.owners == old(vol.owners)
    ensures uio.Valid() && old(uio.offset) <= uio.offset
    ensures uio.Advanced(old(uio.base), old(uio.len), old(uio.offset), old(uio.resid), uio.offset - old(uio.offset))
    ensures var c, off := Content(vol.View(), ino), old(uio.offset);
            && (off >= |c| ==> err == EOK && uio.offset == off && uio.mem[..] == old(uio.mem[..]))
            && (off < |c| ==> Copied(old(uio.mem[..]), uio.mem[..], old(uio.base), c, off, uio.offset))
            && Delivered(c, off, old(uio.resid), err, Window(c, off, uio.offset - off))
  {
    hide MapSaved, Inv, Cur, DirInv, Content, Splice, Bytes;
    ghost var fs, o := vol.View(), vol.owners;
    LoadedVnode(fs, o, ino);
    ContentSize(fs, ino);
    err := vol.Io(ino, uio);
    ghost var off := old(uio.offset);
    if off < |Content(fs, ino)| {
      BytesContent(fs, ino, off, uio.offset - off);
    } else {
      NoBytes(fs, ino, off, old(uio.mem[..]), old(uio.base));
    }
  }

  lemma ContentSize(fs: FS, i: nat)
    ensures |Content(fs, i)| == Cur(fs, i).size
  {
  }

  lemma NoBytes(fs: FS, i: nat, off: nat, mem: seq<byte>, base: nat)
    requires base <= |mem|
    ensures Splice(mem, base, Bytes(fs, i, off, 0)) == mem
  {
    assert Bytes(fs, i, off, 0) == [];
    SpliceNone(mem, base);
  }

  lemma TruncatedElsewhere(fs: FS, o: Owners, i: nat, len: u32)
    requires Inv(fs, o) && i in fs.vn && fs.vn[i].inode.indirect < |fs.disk| && IsInode(o, i)
    ensures var fs' := Truncated(fs, i, len);
            && (forall j :: IsInode(o, j) && j != i ==> FileSame(fs, fs', j))
            && (forall j :: IsInode(o, j) ==>
                  Cur(fs', j).linkcount == Cur(fs, j).linkcount && Cur(fs', j).itype == Cur(fs, j).itype)
  {
    hide Inv, Cur, FileBlock, Truncated;
    TruncatedVnodes(fs, o, i, len);
    forall j, p: nat | IsInode(o, j) && j != i
      ensures FileByte(Truncated(fs, i, len), j, p) == FileByte(fs, j, p)
    {
      TruncatedBlock(fs, o, i, len, j, p / 512);
    }
  }

  /** sfs_truncate on an open regular file: resizes the byte sequence exactly when no stale bytes
      lie between the old end and the new one; the bytes that are cut off stay out of sight for
      good exactly when none is left stale. */
  method Ftruncate(vol: Volume, ino: nat, len: u32)
    requires Ready(vol) && ino in vol.vnodes && ino != ROOT && len + 511 < 0x8000_0000
    modifies vol, vol.freemap.v
    ensures Ready(vol) && OnlyFile(old(vol.View()), old(vol.owners), vol.View(), vol.owners, ino)
    ensures Frees(old(vol.View()), vol.View())
    ensures FileOf(vol.View(), ino) == Trunc(FileOf(old(vol.View()), ino), len)
    ensures Cur(vol.View(), ino).size == len
    // a byte stays stored when its block begins below len or, past the direct blocks, the block before it does
    ensures forall p: nat :: FileByte(vol.View(), ino, p) ==
              if (if p < 7680 then p / 512 else p / 512 - 1) * 512 < len then FileByte(old(vol.View()), ino, p) else 0
    ensures Content(vol.View(), ino) == Resize(Content(old(vol.View()), ino), len) <==>
              ZeroGap(old(vol.View()), ino, len)
    ensures ZeroTail(old(vol.View()), ino) ==>
              (ZeroTail(vol.View(), ino) <==> forall p :: !Stale(Content(old(vol.View()), ino), len, p))
  {
    hide MapSaved, Inv, Cur, DirInv, Content, ZeroTail, ZeroGap, SameInodes, SameTable, OnlyFile, FileSame, Truncated;
    hide FileOf, Trunc, Resize, Stale;
    ghost var fs, o := vol.View(), vol.owners;
    RootInode(fs, o);
    LoadedVnode(fs, o, ino);
    SameTableKeys(fs, ROOT);
    vol.Truncate(ino, len);
    TruncatedElsewhere(fs, o, ino, len);
    FileChanged(fs, o, vol.View(), vol.owners, ino);
    CutFile(fs, o, ino, len);
    CutBytes(fs, o, ino, len);
    TruncatedContent(fs, o, ino, len);
    if ZeroTail(fs, ino) {
      TruncatedTail(fs, o, ino, len);
    }
  }

  // ---------------------------------------------------------------- one operation

  /** No entry names the root directory. */
  ghost predicate RunInv(vol: Volume)
    reads vol, vol.freemap.v
  {
    Ready(vol) && !Named(NameMap(vol.View()), ROOT)
  }

  /** A name in the map of names refers to an inode. */
  lemma NamedAll(fs: FS, o: Owners, n: Name)
    requires DirInv(fs, o) && n in NameMap(fs)
    ensures IsInode(o, NameMap(fs)[n])
  {
    hide AsMap, Unique, Links, Dir, Content, NameMap;
    FoundInMap(fs, n);
    var k :| Used(DirOf(fs), k) && DirOf(fs)[k].name == n;
    NamedInode(fs, o, k);
  }

  lemma {:induction false} LinkedEntry(d: seq<Entry>, i: nat)
    requires Links(d, i) > 0 && i != 0
    ensures exists k :: Used(d, k) && d[k].ino == i
  {
    if d[|d| - 1].ino == i {
      assert Used(d, |d| - 1);
    } else {
      LinkedEntry(d[..|d| - 1], i);
      var k :| Used(d[..|d| - 1], k) && d[..|d| - 1][k].ino == i;
      assert Used(d, k);
    }
  }

  /** A regular file has a link exactly when it has a name. */
  lemma LinkedNamed(fs: FS, o: Owners, i: nat)
    requires DirInv(fs, o) && IsInode(o, i) && i != ROOT && i != 0
    ensures Cur(fs, i).linkcount > 0 <==> Named(NameMap(fs), i)
  {
    hide Cur, Unique, Links, AsMap, Dir, Content, NameMap, FilesOk;
    var d := DirOf(fs);
    if Cur(fs, i).linkcount > 0 {
      LinkedEntry(d, i);
      var k :| Used(d, k) && d[k].ino == i;
      NamedInode(fs, o, k);
    }
    if n :| n in NameMap(fs) && NameMap(fs)[n] == i {
      FoundInMap(fs, n);
      var k :| Used(d, k) && d[k].name == n;
      NamedInode(fs, o, k);
      LinksPositive(d, k);
    }
  }

  /** The files that exist are exactly those that are open or named. */
  lemma Exists(fs: FS, o: Owners, i: nat)
    requires Inv(fs, o) && DirInv(fs, o) && i != ROOT
    ensures i in FilesOf(fs, o) <==> IsInode(o, i)
    ensures IsInode(o, i) <==> i in OpenOf(fs) || Named(NameMap(fs), i)
  {
    hide Inv, Cur, DirShape, LinksOk, NameMap, FileOf;
    ZeroNotInode(fs, o);
    if i in fs.vn {
      LoadedVnode(fs, o, i);
    }
    if IsInode(o, i) {
      LinkedNamed(fs, o, i);
    }
    if n :| n in NameMap(fs) && NameMap(fs)[n] == i {
      NamedAll(fs, o, n);
    }
  }

  lemma RunSound(fs: FS, o: Owners)
    requires Inv(fs, o) && DirInv(fs, o) && !Named(NameMap(fs), ROOT)
    ensures Sound(AbsOf(fs, o))
  {
    hide Inv, DirInv, NameMap, IsInode, FileOf, Named;
    forall i | i != ROOT
      ensures i in FilesOf(fs, o) <==> i in OpenOf(fs) || Named(NameMap(fs), i)
    {
      Exists(fs, o, i);
    }
  }

  /** Operations on names keep every file that remains. */
  lemma KeptAbs(fs: FS, o: Owners, fs': FS, o': Owners)
    requires FilesKept(fs, o, fs', o')
    ensures forall i :: i in FilesOf(fs, o) && i in FilesOf(fs', o') ==> FilesOf(fs', o')[i] == FilesOf(fs, o)[i]
  {
    hide FileSame, FileOf;
    forall i | IsInode(o, i) && IsInode(o', i) && i != ROOT
      ensures FileOf(fs', i) == FileOf(fs, i)
    {
      SameFile(fs, fs', i);
    }
  }

  lemma KeptAll(fs: FS, o: Owners, fs': FS, o': Owners)
    requires FilesKept(fs, o, fs', o') && SameInodes(o, o')
    ensures FilesOf(fs', o') == FilesOf(fs, o)
  {
    hide FilesKept, FileOf;
    KeptAbs(fs, o, fs', o');
  }

  /** Nothing but file x can have gone away. */
  lemma SweptFiles(fs: FS, o: Owners, fs': FS, o': Owners, x: nat)
    requires Inv(fs', o') && DirInv(fs', o') && FilesKept(fs, o, fs', o') && x != ROOT
    requires forall j :: j != x ==> (IsInode(o', j) <==> IsInode(o, j))
    requires IsInode(o', x) ==> IsInode(o, x)
    ensures FilesOf(fs', o') == Swept(NameMap(fs'), FilesOf(fs, o), OpenOf(fs'), x)
  {
    hide Inv, DirInv, FilesKept, NameMap, FileOf, Named;
    Exists(fs', o', x);
    KeptAbs(fs, o, fs', o');
  }

  lemma SameOpen(fs: FS, fs': FS)
    requires SameTable(fs, fs')
    ensures OpenOf(fs') == OpenOf(fs)
  {
  }

  lemma TakenOpen(fs: FS, fs': FS, i: nat)
    requires Opened(fs, fs', i) && i != ROOT
    ensures OpenOf(fs') == Taken(OpenOf(fs), i)
  {
  }

  lemma DroppedOpen(fs: FS, fs': FS, i: nat)
    requires i in fs.vn && i != ROOT && fs.vn[i].refs > 0
    requires i in fs'.vn <==> fs.vn[i].refs > 1
    requires i in fs'.vn ==> fs'.vn[i].refs == fs.vn[i].refs - 1
    requires forall j :: j != i ==> (j in fs'.vn <==> j in fs.vn) && (j in fs'.vn ==> fs'.vn[j] == fs.vn[j])
    ensures OpenOf(fs') == Dropped(OpenOf(fs), i)
  {
  }

  lemma FilesAt(fs: FS, o: Owners, i: nat)
    ensures i in FilesOf(fs, o) <==> IsInode(o, i) && i != ROOT
    ensures i in FilesOf(fs, o) ==> FilesOf(fs, o)[i] == FileOf(fs, i)
  {
  }

  /** A change confined to file x, as a change of the map of files. */
  lemma OneFile(fs: FS, o: Owners, fs': FS, o': Owners, x: nat)
    requires OnlyFile(fs, o, fs', o', x) && IsInode(o, x) && x != ROOT
    ensures FilesOf(fs', o') == FilesOf(fs, o)[x := FileOf(fs', x)]
    ensures NameMap(fs') == NameMap(fs) && OpenOf(fs') == OpenOf(fs)
    ensures x in FilesOf(fs, o) && FilesOf(fs, o)[x] == FileOf(fs, x)
  {
    hide NameMap, FileSame, FileOf;
    SameOpen(fs, fs');
    forall i | IsInode(o, i) && i != ROOT && i != x
      ensures FileOf(fs', i) == FileOf(fs, i)
    {
      SameFile(fs, fs', i);
    }
  }

  method StepCreat(vol: Volume, name: Name, excl: bool) returns (err: Errno)
    requires RunInv(vol)
    modifies vol, vol.freemap.v
    ensures RunInv(vol)
    ensures AbsStep(AbsOf(old(vol.View()), old(vol.owners)), Creat(name, excl), err, [], AbsOf(vol.View(), vol.owners))
  {
    hide MapSaved, Inv, DirInv, Content, ZeroTail, NameMap, FilesKept, FilesOf, OpenOf, FreeOf, Opened, Allocs;
    hide Taken, SameTable;
    ghost var fs, o := vol.View(), vol.owners;
    RootInode(fs, o);
    var ino;
    err, ino := Create(vol, name, excl);
    ghost var fs', o' := vol.View(), vol.owners;
    if err == EOK && name !in NameMap(fs) {
      CreatedAbs(fs, o, fs', o', ino);
    } else {
      KeptAll(fs, o, fs', o');
      if err == EOK {
        TakenOpen(fs, fs', ino);
      } else {
        SameOpen(fs, fs');
      }
    }
    AllocsFree(fs, fs', if err == EOK then 3 else 1);
  }

  lemma CreatedAbs(fs: FS, o: Owners, fs': FS, o': Owners, i: u32)
    requires Inv(fs, o) && FilesKept(fs, o, fs', o') && i != ROOT
    requires !IsInode(o, i) && IsInode(o', i) && Content(fs', i) == [] && ZeroTail(fs', i)
    requires forall j :: j != i ==> (IsInode(o', j) <==> IsInode(o, j))
    requires Opened(fs, fs', i)
    ensures i !in FilesOf(fs, o) && FilesOf(fs', o') == FilesOf(fs, o)[i as nat := EmptyFile]
    ensures OpenOf(fs') == OpenOf(fs)[i as nat := 1]
  {
    hide Inv, Cur, Content, ZeroTail, FilesKept, FileOf, Opened;
    TakenOpen(fs, fs', i);
    EmptyFileOf(fs', i);
    KeptAbs(fs, o, fs', o');
    if i in fs.vn {
      LoadedVnode(fs, o, i);
    }
  }

  method StepOpen(vol: Volume, name: Name) returns (err: Errno)
    requires RunInv(vol)
    modifies vol, vol.freemap.v
    ensures RunInv(vol)
    ensures AbsStep(AbsOf(old(vol.View()), old(vol.owners)), Open(name), err, [], AbsOf(vol.View(), vol.owners))
  {
    hide MapSaved, Inv, DirInv, Content, NameMap, FilesKept, FilesOf, OpenOf, FreeOf, Opened, Taken, IsInode;
    ghost var fs, o := vol.View(), vol.owners;
    var ino, slot;
    err, ino, slot := LookOnce(vol, name);
    SameNames(fs, vol.View());
    SameFree(fs, vol.View());
    KeptAll(fs, o, vol.View(), vol.owners);
    if err == EOK {
      NamedInode(vol.View(), o, slot);
      TakenOpen(fs, vol.View(), ino);
    }
  }

  method StepClose(vol: Volume, ino: u32) returns (err: Errno)
    requires RunInv(vol)
    modifies vol, vol.freemap.v
    ensures RunInv(vol)
    ensures AbsStep(AbsOf(old(vol.View()), old(vol.owners)), Close(ino), err, [], AbsOf(vol.View(), vol.owners))
  {
    hide MapSaved, Inv, DirInv, Content, NameMap, FilesKept, FilesOf, IsInode, FreeOf, Dropped, Swept;
    ghost var fs, o := vol.View(), vol.owners;
    if ino in vol.vnodes && ino != ROOT {
      LoadedVnode(fs, o, ino);
      Release(vol, ino);
      SameNames(fs, vol.View());
      DroppedOpen(fs, vol.View(), ino);
      SweptFiles(fs, o, vol.View(), vol.owners, ino);
      MoreFree(fs, vol.View());
      return EOK;
    }
    err := EBADF;
  }

  method StepLink(vol: Volume, name: Name, ino: u32) returns (err: Errno)
    requires RunInv(vol)
    modifies vol, vol.freemap.v
    ensures RunInv(vol)
    ensures AbsStep(AbsOf(old(vol.View()), old(vol.owners)), AddLink(name, ino), err, [], AbsOf(vol.View(), vol.owners))
  {
    hide MapSaved, Inv, DirInv, Content, NameMap, FilesKept, FilesOf, IsInode, FreeOf, Full;
    hide Allocs, SameTable;
    ghost var fs, o := vol.View(), vol.owners;
    if ino in vol.vnodes && ino != ROOT {
      err := SfsDirectory.Link(vol, name, ino);
      KeptAll(fs, o, vol.View(), vol.owners);
      SameOpen(fs, vol.View());
      AllocsFree(fs, vol.View(), if err == EOK then 2 else 1);
      if err == ENOSPC { NoneFree(vol.View()); }
    } else {
      err := EBADF;
    }
  }

  method StepRemove(vol: Volume, name: Name) returns (err: Errno)
    requires RunInv(vol)
    modifies vol, vol.freemap.v
    ensures RunInv(vol)
    ensures AbsStep(AbsOf(old(vol.View()), old(vol.owners)), Unlinked(name), err, [], AbsOf(vol.View(), vol.owners))
  {
    hide MapSaved, Inv, DirInv, Content, NameMap, FilesKept, FilesOf, IsInode, FreeOf, Swept, SameTable;
    ghost var fs, o := vol.View(), vol.owners;
    err := Remove(vol, name);
    SameOpen(fs, vol.View());
    MoreFree(fs, vol.View());
    if err == EOK {
      SweptFiles(fs, o, vol.View(), vol.owners, NameMap(fs)[name]);
    } else {
      KeptAll(fs, o, vol.View(), vol.owners);
    }
  }

  method StepRename(vol: Volume, n1: Name, n2: Name) returns (err: Errno)
    requires RunInv(vol)
    modifies vol, vol.freemap.v
    ensures RunInv(vol)
    ensures AbsStep(AbsOf(old(vol.View()), old(vol.owners)), Renamed(n1, n2), err, [], AbsOf(vol.View(), vol.owners))
  {
    hide MapSaved, Inv, DirInv, Content, NameMap, FilesKept, FilesOf, IsInode, FreeOf, Full, SameTable;
    ghost var fs, o := vol.View(), vol.owners;
    err := Rename(vol, n1, n2);
    KeptAll(fs, o, vol.View(), vol.owners);
    SameOpen(fs, vol.View());
    AllocsFree(fs, vol.View(), if err == EOK then 2 else 1);
    if err == ENOSPC { NoneFree(vol.View()); }
  }

  lemma WroteAbs(fs: FS, o: Owners, fs': FS, o': Owners, i: u32, off: nat, d: seq<byte>, k: nat, err: Errno)
    requires OnlyFile(fs, o, fs', o', i) && IsInode(o, i) && i in fs.vn && i != ROOT && k <= |d|
    requires FileOf(fs', i) == Put(FileOf(fs, i), off, d[..k])
    requires Stopped(FileOf(fs', i), off, d, k, err, |FreeOf(fs')|)
    requires Allocs(fs, fs', Need(Wrote(i, off, d))) && (err == ENOSPC ==> |FreeOf(fs)| < Need(Wrote(i, off, d)))
    ensures AbsStep(AbsOf(fs, o), Wrote(i, off, d), err, [], AbsOf(fs', o')) && NameMap(fs') == NameMap(fs)
  {
    hide NameMap, FilesOf, FileOf, FreeOf, IsInode, OnlyFile, Put, Stopped, Need, Allocs;
    OneFile(fs, o, fs', o', i);
    AllocsFree(fs, fs', Need(Wrote(i, off, d)));
  }

  method StepWrite(vol: Volume, ino: u32, off: nat, data: seq<byte>) returns (err: Errno)
    requires RunInv(vol) && Legal(Wrote(ino, off, data))
    modifies vol, vol.freemap.v
    ensures RunInv(vol)
    ensures AbsStep(AbsOf(old(vol.View()), old(vol.owners)), Wrote(ino, off, data), err, [],
                    AbsOf(vol.View(), vol.owners))
  {
    hide MapSaved, Inv, Cur, DirInv, Content, ZeroTail, NameMap, FilesOf, FileOf, FreeOf, IsInode, ZeroGap;
    hide Overlay, OnlyFile, Put, Hole, NoRoom, StoppedAt, Blocks, Allocs, Overwritten;
    ghost var fs, o := vol.View(), vol.owners;
    if ino in vol.vnodes && ino != ROOT {
      LoadedVnode(fs, o, ino);
      var buf := new byte[|data|](k requires 0 <= k < |data| => data[k]);
      var uio := new Uio(buf, 0, |data|, off, UioWrite);
      assert buf[..] == data;
      err := Write(vol, ino, uio);
      ghost var k := uio.offset - off;
      assert buf[..][0..uio.base] == data[..k];
      if err == ENOSPC {
        RoomHole(vol.View(), ino, uio.offset);
      }
      WroteAbs(fs, o, vol.View(), vol.owners, ino, off, data, k, err);
    } else {
      err := EBADF;
    }
  }

  method StepTruncate(vol: Volume, ino: u32, len: u32) returns (err: Errno)
    requires RunInv(vol) && Legal(Resized(ino, len))
    modifies vol, vol.freemap.v
    ensures RunInv(vol)
    ensures AbsStep(AbsOf(old(vol.View()), old(vol.owners)), Resized(ino, len), err, [], AbsOf(vol.View(), vol.owners))
    ensures err == EOK ==> Cur(vol.View(), ino).size == len
    ensures err == EOK ==>
              forall p: nat :: FileByte(vol.View(), ino, p) ==
                if (if p < 7680 then p / 512 else p / 512 - 1) * 512 < len then FileByte(old(vol.View()), ino, p) else 0
  {
    hide MapSaved, Inv, Cur, DirInv, Content, ZeroTail, NameMap, FilesOf, FileOf, FreeOf, IsInode, ZeroGap, Resize;
    hide OnlyFile, Trunc;
    ghost var fs, o := vol.View(), vol.owners;
    if ino in vol.vnodes && ino != ROOT {
      LoadedVnode(fs, o, ino);
      Ftruncate(vol, ino, len);
      OneFile(fs, o, vol.View(), vol.owners, ino);
      MoreFree(fs, vol.View());
      return EOK;
    }
    err := EBADF;
  }

  method StepFsync(vol: Volume, ino: u32) returns (err: Errno)
    requires RunInv(vol)
    modifies vol, vol.freemap.v
    ensures RunInv(vol)
    ensures AbsStep(AbsOf(old(vol.View()), old(vol.owners)), Fsync(ino), err, [], AbsOf(vol.View(), vol.owners))
  {
    hide MapSaved, Inv, Cur, DirInv, Content, NameMap, FilesKept, FilesOf, FreeOf, IsInode, SameFiles, DecodeInode;
    hide EncodeInode;
    ghost var fs, o := vol.View(), vol.owners;
    if ino in vol.vnodes {
      RootInode(fs, o);
      vol.SyncInode(ino);
      SameFree(fs, vol.View());
      SameView(fs, o, vol.View(), vol.owners);
      SameNames(fs, vol.View());
      KeptAll(fs, o, vol.View(), vol.owners);
      SameOpen(fs, vol.View());
      return EOK;
    }
    err := EBADF;
  }

  method StepSync(vol: Volume) returns (err: Errno)
    requires RunInv(vol)
    modifies vol, vol.freemap.v
    ensures RunInv(vol)
    ensures AbsStep(AbsOf(old(vol.View()), old(vol.owners)), SyncAll, err, [], AbsOf(vol.View(), vol.owners))
  {
    hide MapSaved, Inv, Cur, DirInv, Content, NameMap, FilesKept, FilesOf, FreeOf, IsInode, SameFiles;
    hide Mksfs.Mountable, Mksfs.Mounted;
    ghost var fs, o := vol.View(), vol.owners;
    RootInode(fs, o);
    Mksfs.Sync(vol);
    SameUsed(fs, vol.View(), o);
    SameFree(fs, vol.View());
    SameView(fs, o, vol.View(), vol.owners);
    SameNames(fs, vol.View());
    KeptAll(fs, o, vol.View(), vol.owners);
    SameOpen(fs, vol.View());
    return EOK;
  }

  method StepRead(vol: Volume, ino: u32, off: nat, n: nat) returns (err: Errno, out: seq<byte>)
    requires RunInv(vol) && Legal(ReadAt(ino, off, n))
    modifies vol, vol.freemap.v
    ensures RunInv(vol)
    ensures AbsStep(AbsOf(old(vol.View()), old(vol.owners)), ReadAt(ino, off, n), err, out,
                    AbsOf(vol.View(), vol.owners))
  {
    hide MapSaved, Inv, Cur, DirInv, Content, NameMap, FilesOf, FileOf, FreeOf, IsInode, Splice, Visible;
    ghost var fs, o := vol.View(), vol.owners;
    if !(ino in vol.vnodes && ino != ROOT) {
      return EBADF, [];
    }
    LoadedVnode(fs, o, ino);
    FilesAt(fs, o, ino);
    VisibleContent(fs, ino);
    var buf := new byte[n](_ => 0);
    var uio := new Uio(buf, 0, n, off, UioRead);
    ghost var c, mem := Content(fs, ino), buf[..];
    err := Read(vol, ino, uio);
    out := buf[..uio.base];
    if off < |c| {
      SplicePrefix(mem, c[off..uio.offset]);
    }
    assert out == Window(c, off, uio.offset - off);
    assert vol.View() == fs && vol.owners == o;
  }

  lemma SplicePrefix(mem: seq<byte>, d: seq<byte>)
    requires |d| <= |mem|
    ensures Splice(mem, 0, d)[..|d|] == d
  {
  }

  method Step(vol: Volume, op: Op) returns (err: Errno, out: seq<byte>)
    requires RunInv(vol) && Legal(op)
    modifies vol, vol.freemap.v
    ensures RunInv(vol)
    ensures AbsStep(AbsOf(old(vol.View()), old(vol.owners)), op, err, out, AbsOf(vol.View(), vol.owners))
  {
    hide MapSaved, RunInv, AbsStep, AbsOf;
    out := [];
    match op
    case Creat(name, excl) => err := StepCreat(vol, name, excl);
    case Open(name) => err := StepOpen(vol, name);
    case Close(ino) => err := StepClose(vol, ino);
    case AddLink(name, ino) => err := StepLink(vol, name, ino);
    case Unlinked(name) => err := StepRemove(vol, name);
    case Renamed(n1, n2) => err := StepRename(vol, n1, n2);
    case Wrote(ino, off, data) => err := StepWrite(vol, ino, off, data);
    case Resized(ino, len) => err := StepTruncate(vol, ino, len);
    case Fsync(ino) => err := StepFsync(vol, ino);
    case SyncAll => err := StepSync(vol);
    case ReadAt(ino, off, n) => err, out := StepRead(vol, ino, off, n);
  }

  // ---------------------------------------------------------------- whole runs

  /** A volume with no file, no name and nothing open. */
  ghost predicate Blank(a: AbsFS) {
    a.names == map[] && a.files == map[] && a.open == map[]
  }

  /** From mksfs and mount on, whatever operations follow: the volume stays consistent, what it
      shows is a run of the abstract filesystem that starts blank, at every point exactly the
      files exist that are open or named, and no operation runs out of space as long as the disk
      has what they may need. Every block is free, reserved or held by one slot at the end. */
  method Session(device: seq<Block>, super: Block, ops: seq<Op>)
    returns (vol: Volume, errs: seq<Errno>, outs: seq<seq<byte>>, ghost trace: seq<AbsFS>)
    requires 3 <= |device| <= MAXDISK && forall k :: 0 <= k < |ops| ==> Legal(ops[k])
    ensures RunInv(vol) && fresh(vol) && fresh(vol.freemap.v) && AbsRun(trace, ops, errs, outs)
    ensures Blank(trace[0]) && trace[|ops|] == AbsOf(vol.View(), vol.owners)
    ensures forall k :: 0 <= k <= |ops| ==> Sound(trace[k])
    ensures trace[0].free == |device| - 2 - (|device| + 4095) / 4096
    ensures Needs(ops) <= trace[0].free ==> forall k :: 0 <= k < |ops| ==> errs[k] != ENOSPC
    ensures trace[|ops|].free + |vol.owners| + 1 + (|vol.disk| + 4095) / 4096 == |vol.disk|
  {
    hide MapSaved, RunInv, AbsStep, AbsOf, Sound, Legal, Blank, BitBlocks, Needs;
    vol := Boot(device, super);
    errs, outs, trace := [], [], [AbsOf(vol.View(), vol.owners)];
    VolSound(vol);
    for i := 0 to |ops|
      invariant RunInv(vol) && fresh(vol) && fresh(vol.freemap.v)
      invariant AbsRun(trace, ops[..i], errs, outs) && Blank(trace[0])
      invariant trace[0].free == |device| - 2 - (|device| + 4095) / 4096
      invariant trace[i] == AbsOf(vol.View(), vol.owners)
      invariant forall k :: 0 <= k <= i ==> Sound(trace[k])
    {
      var err, out := Step(vol, ops[i]);
      errs, outs := errs + [err], outs + [out];
      trace := trace + [AbsOf(vol.View(), vol.owners)];
      VolSound(vol);
    }
    assert ops[..|ops|] == ops;
    if Needs(ops) <= trace[0].free {
      EnoughSpace(trace, ops, errs, outs);
    }
    VolBlocks(vol);
  }

  lemma VolBlocks(vol: Volume)
    requires RunInv(vol)
    ensures AbsOf(vol.View(), vol.owners).free + |vol.owners| + 1 + (|vol.disk| + 4095) / 4096 == |vol.disk|
  {
    hide MapSaved, Inv, DirInv, NameMap, Named, BitBlocks;
    BlocksConserved(vol.View(), vol.owners);
  }

  lemma VolSound(vol: Volume)
    requires RunInv(vol)
    ensures Sound(AbsOf(vol.View(), vol.owners))
  {
    hide MapSaved, Inv, DirInv, AbsOf, Sound, NameMap, Named;
    RunSound(vol.View(), vol.owners);
  }

  /** mksfs, sfs_mount and sfs_getroot. */
  method Boot(device: seq<Block>, super: Block) returns (vol: Volume)
    requires 3 <= |device| <= MAXDISK
    ensures RunInv(vol) && fresh(vol) && fresh(vol.freemap.v)
    ensures Blank(AbsOf(vol.View(), vol.owners)) && |vol.disk| == |device|
    ensures AbsOf(vol.View(), vol.owners).free == |device| - 2 - (|device| + 4095) / 4096
  {
    hide MapSaved, Inv, Cur, Content, NameMap, FilesKept, FileOf, FreeOf, SameFiles, Mksfs.Mountable, LinksOk;
    hide BitBlocks;
    ghost var o;
    var disk;
    disk, o := Mksfs.Format(device, super);
    vol := Mksfs.Mount(disk, o);
    ghost var fs := vol.View();
    vol.LoadVnode(ROOT);
    SameView(fs, o, vol.View(), o);
    SameNames(fs, vol.View());
    BlocksConserved(vol.View(), o);
    assert |o| == |o.Keys| == 1;
  }

  /** Every file has a name, so that nothing is lost when the open references are. */
  ghost predicate NoOrphans(a: AbsFS) { forall i :: i in a.files ==> Named(a.names, i) }

  lemma NamedLinked(fs: FS, o: Owners)
    requires Inv(fs, o) && DirInv(fs, o) && NoOrphans(AbsOf(fs, o))
    ensures forall j :: IsInode(o, j) && j != ROOT ==> Cur(fs, j).linkcount > 0
  {
    hide Inv, Cur, DirInv, NameMap, Named, FileOf;
    ZeroNotInode(fs, o);
    forall j | IsInode(o, j) && j != ROOT
      ensures Cur(fs, j).linkcount > 0
    {
      assert j in FilesOf(fs, o);
      LinkedNamed(fs, o, j);
    }
  }

  /** The same files behind another vnode table show the same names and bytes. */
  lemma SameStored(fs: FS, o: Owners, fs': FS)
    requires SameFiles(fs, fs', o) && IsInode(o, ROOT)
    ensures FilesKept(fs, o, fs', o) && DirOf(fs') == DirOf(fs)
  {
    hide Cur, FileBlock, IsInode, Dir, Content, Unique;
    forall j | IsInode(o, j)
      ensures FileSame(fs, fs', j)
    {
      SameBlocksBytes(fs, fs', j);
    }
    SameContent(fs, fs', ROOT);
  }

  /** sfs_sync, then mounting what is on the disk: every name and every stored byte is still
      there, as many blocks are free, and nothing is open. The new volume is ready to go on exactly
      when no open file had lost its last name: nothing will ever free the blocks of such a file. */
  method Reboot(vol: Volume) returns (vol': Volume)
    requires RunInv(vol)
    modifies vol
    ensures vol'.Valid() && vol'.owners == old(vol.owners)
    ensures var a, a' := AbsOf(old(vol.View()), old(vol.owners)), AbsOf(vol'.View(), vol'.owners);
            && a'.names == a.names && a'.files == a.files && a'.open == map[] && a'.free == a.free
            && (RunInv(vol') <==> NoOrphans(a))
  {
    hide MapSaved, Inv, Cur, Content, NameMap, FilesKept, FilesOf, FreeOf, IsInode, SameFiles, LinksOk, FilesOk;
    hide DirShape, Named;
    hide NoOrphans;
    ghost var fs, o := vol.View(), vol.owners;
    RootInode(fs, o);
    Mksfs.Sync(vol);
    vol' := Mksfs.Mount(vol.disk, vol.owners);
    ghost var fs1 := vol'.View();
    SameTrans1(fs, vol.View(), fs1, o);
    RootLoads(fs, fs1, o);
    vol'.LoadVnode(ROOT);
    SameUsed(fs, vol'.View(), o);
    SameFree(fs, vol'.View());
    SameTrans1(fs, fs1, vol'.View(), o);
    NoChange(fs, o);
    SameStored(fs, o, vol'.View());
    SameNames(fs, vol'.View());
    KeptAll(fs, o, vol'.View(), o);
    if NoOrphans(AbsOf(fs, o)) {
      NamedLinked(fs, o);
      SameView(fs, o, vol'.View(), o);
    } else if RunInv(vol') {
      VolSound(vol');
      NoneOpen(AbsOf(fs, o), AbsOf(vol'.View(), o));
      assert false;
    }
  }

  lemma NoneOpen(a: AbsFS, a': AbsFS)
    requires Sound(a') && a'.names == a.names && a'.files == a.files && a'.open == map[]
    ensures NoOrphans(a)
  {
    hide Named;
  }

  lemma RootLoads(fs: FS, fs': FS, o: Owners)
    requires DirInv(fs, o) && SameFiles(fs, fs', o) && IsInode(o, ROOT)
    ensures Cur(fs', ROOT).itype == 2
  {
    hide Cur, FileBlock, IsInode;
  }

  /** Durability: after any run from mksfs on, sync and a new mount show exactly the names and
      files the run ended in. */
  method Durable(device: seq<Block>, super: Block, ops: seq<Op>)
    returns (vol: Volume, errs: seq<Errno>, outs: seq<seq<byte>>, ghost trace: seq<AbsFS>)
    requires 3 <= |device| <= MAXDISK && forall k :: 0 <= k < |ops| ==> Legal(ops[k])
    ensures AbsRun(trace, ops, errs, outs) && Blank(trace[0])
    ensures vol.Valid() && AbsOf(vol.View(), vol.owners).names == trace[|ops|].names
    ensures AbsOf(vol.View(), vol.owners).files == trace[|ops|].files
    ensures AbsOf(vol.View(), vol.owners).free == trace[|ops|].free
  {
    hide MapSaved, RunInv, AbsStep, AbsOf, Inv, Sound, Legal, NoOrphans;
    var v;
    v, errs, outs, trace := Session(device, super, ops);
    vol := Reboot(v);
  }

  /** A run from mksfs on whose truncations are to length 0 or extensions treats every file as a
      plain byte sequence. */
  method PlainSession(device: seq<Block>, super: Block, ops: seq<Op>)
    returns (vol: Volume, errs: seq<Errno>, outs: seq<seq<byte>>, ghost trace: seq<AbsFS>)
    requires 3 <= |device| <= MAXDISK && forall k :: 0 <= k < |ops| ==> Legal(ops[k])
    ensures AbsRun(trace, ops, errs, outs) && trace[|ops|] == AbsOf(vol.View(), vol.owners)
    ensures (forall k :: 0 <= k < |ops| ==> SafeOp(trace[k], ops[k])) ==>
              forall k :: 0 <= k < |ops| ==> PlainEffect(trace[k], ops[k], errs[k], trace[k + 1])
  {
    hide MapSaved, RunInv, AbsStep, AbsOf, Inv, Sound, Legal, PlainEffect, SafeOp;
    vol, errs, outs, trace := Session(device, super, ops);
    if forall k :: 0 <= k < |ops| ==> SafeOp(trace[k], ops[k]) {
      PlainRun(trace, ops, errs, outs, |ops|);
    }
  }
}
