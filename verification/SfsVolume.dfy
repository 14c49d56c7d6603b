/** kern/fs/sfs/sfs_vnode.c: block allocation, block mapping and file I/O on a mounted
    volume. The device is fault-free, so the only errors left are EINVAL and ENOSPC. */
module SfsVolume {
  import opened Codec
  import opened SfsModel
  import opened SfsSteps
  import opened SfsTruncate
  import opened SfsBytes
  import opened Uio
  import Bitmap

  datatype Errno = EOK | EINVAL | ENOSPC | ENOENT | EEXIST | ENAMETOOLONG | EBADF

  /** The vnode table has the same entries with the same reference counts. */
  ghost predicate SameTable(fs: FS, fs': FS) {
    fs'.vn.Keys == fs.vn.Keys && forall i :: i in fs.vn ==> fs'.vn[i].refs == fs.vn[i].refs
  }

  /** Every bit of the free map is set. */
  ghost predicate Full(fs: FS) {
    forall b :: 0 <= b < |fs.disk| ==> b in fs.used
  }

  /** A failed transfer of n bytes at off stopped before its end, at the start or at a block boundary. */
  predicate StoppedAt(off: nat, n: nat, p: nat) {
    p == off || (p % 512 == 0 && off < p < off + n)
  }

  /** The block at offset p is not stored and no block is left for it. */
  ghost predicate NoRoom(fs: FS, i: nat, p: nat) {
    p < MAXFILE && Full(fs) && FileBlock(fs, i, p / 512) == ZeroBlock
  }

  /** Every loaded vnode but that of i is as it was. */
  ghost predicate OnlyVnode(fs: FS, fs': FS, i: nat) {
    forall j :: j in fs.vn && j != i ==> j in fs'.vn && fs'.vn[j] == fs.vn[j]
  }

  /** The blocks of the disk that are free. */
  ghost function FreeOf(fs: FS): set<nat> {
    set b | 0 <= b < |fs.disk| && b !in fs.used
  }

  /** The number of free blocks, counting the indirect block file i has as one of them: what is
      left to spend on data blocks of file i. */
  ghost function Room(fs: FS, i: nat): nat {
    |FreeOf(fs)| + if i in fs.vn && fs.vn[i].inode.indirect != 0 then 1 else 0
  }

  /** The number of blocks that bytes lo up to hi touch; an empty range inside a block touches it. */
  function Blocks(lo: nat, hi: nat): int { (hi + 511) / 512 - lo / 512 }

  /** How many of them a transfer that started at off and stopped at p can have allocated. */
  function Cost(off: nat, p: nat, err: Errno): int {
    if p == off && err != EOK then 0 else Blocks(off, p)
  }

  /** Bytes off to off + n lie within one block, not all of it, that holds more than zeros. */
  predicate InPlace(fs: FS, i: nat, off: nat, n: nat) {
    off % 512 + n <= 512 && n < 512 && FileBlock(fs, i, off / 512) != ZeroBlock
  }

  /** s holds a block of file i that the bytes from off up to end touch, or its indirect block when
      one of them lies behind it. An empty range inside a block touches it. */
  predicate Touched(i: nat, off: nat, end: nat, s: Slot) {
    s.ino == i &&
    match s
    case InodeOf(_) => false
    case Direct(_, k) => off / 512 <= k && 512 * k < end
    case IndSlot(_, k) => off / 512 <= 15 + k && 512 * (15 + k) < end
    case IndirectOf(_) => 512 * 15 < end && off / 512 * 512 < end
  }

  /** From fs to fs' only empty slots were filled, and only such as bytes off up to end touch. */
  ghost predicate Grew(fs: FS, fs': FS, o: Owners, i: nat, off: nat, end: nat) {
    forall s :: SlotOk(o, s) && Ref(fs', s) != Ref(fs, s) ==> Ref(fs, s) == 0 && Touched(i, off, end, s)
  }

  class Volume {
    var disk: seq<Block>
    const freemap: Bitmap.Bitmap
    var freemapdirty: bool
    var vnodes: map<nat, Vnode>
    ghost var owners: Owners

    ghost function View(): FS
      reads this, freemap.v
    {
      FS(disk, freemap.Bits(), vnodes)
    }

    ghost predicate MapOk()
      reads this, freemap.v
    {
      freemap.Valid() && freemap.nbits == BitmapSize(|disk|) && MapSaved(disk, freemap.v[..], freemapdirty)
    }

    ghost predicate Valid()
      reads this, freemap.v
    {
      MapOk() && Inv(View(), owners)
    }

    /** The end of sfs_domount: no vnodes are loaded yet. */
    constructor (disk: seq<Block>, freemap: Bitmap.Bitmap, ghost owners: Owners)
      requires freemap.Valid() && freemap.nbits == BitmapSize(|disk|) && MapSaved(disk, freemap.v[..], false)
      requires Inv(FS(disk, freemap.Bits(), map[]), owners)
      ensures Valid() && this.disk == disk && this.freemap == freemap && vnodes == map[] && this.owners == owners
      ensures !freemapdirty
    {
      this.disk, this.freemap, this.owners := disk, freemap, owners;
      freemapdirty, vnodes := false, map[];
    }

    /** The buffer of a transfer is not the free map. */
    ghost predicate Apart(uio: Uio) {
      freemap.v as object != uio.mem
    }

    // -------------------------------------------------------------- space allocation

    /** sfs_balloc. The panic for a block number past the end of the disk cannot happen. */
    method Balloc() returns (err: Errno, b: u32)
      requires Valid()
      modifies this`disk, this`freemapdirty, freemap.v
      ensures MapOk() && (err == EOK || err == ENOSPC)
      ensures |disk| == old(|disk|)
      ensures err == EOK ==> b < |disk| && b !in old(View()).used && View() == Balloced(old(View()), b) && freemapdirty
      ensures err == ENOSPC ==> View() == old(View()) && Full(View())
    {
      hide MapSaved, Ref, Clean, Bitmap.BitsOf;
      var ok, index := freemap.Alloc();
      if !ok {
        AllUsed(|disk|);
        return ENOSPC, 0;
      }
      freemapdirty := true;
      InRange(old(View()), owners, index);
      if index >= |disk| {
        assert false;   // panic: invalid block
      }
      disk := disk[index := ZeroBlock];
      DirtySaved(disk, freemap.v[..]);
      return EOK, index;
    }

    /** sfs_bfree. The assertion in bitmap_unmark that the bit is set is the precondition. */
    method Bfree(b: nat)
      requires MapOk() && b in View().used
      modifies this`freemapdirty, freemap.v
      ensures MapOk() && View() == old(View()).(used := old(View()).used - {b})
    {
      hide Bitmap.BitsOf;
      assert b < freemap.nbits by { BitInRange(b); }
      freemap.Unmark(b);
      freemapdirty := true;
    }

    lemma BitInRange(b: nat)
      requires MapOk() && b in View().used
      ensures b < freemap.nbits
    {
    }

    /** sfs_bused */
    method Bused(b: nat) returns (r: bool)
      requires MapOk() && b < |disk|
      ensures r == (b in View().used)
    {
      hide MapSaved, Bitmap.BitsOf;
      AllUsed(|disk|);
      r := freemap.IsSet(b);
    }

    // -------------------------------------------------------------- block mapping

    /** The first half of sfs_bmap: direct blocks. */
    method BmapDirect(ino: nat, fb: nat, doalloc: bool) returns (err: Errno, d: u32)
      requires Valid() && ino in vnodes && fb < NDIRECT
      modifies this, freemap.v
      ensures Valid() && |disk| == old(|disk|)
      ensures SameFiles(old(View()), View(), old(owners)) && SameInodes(old(owners), owners)
      ensures SameTable(old(View()), View()) && OnlyVnode(old(View()), View(), ino) && old(View()).used <= View().used
      ensures err == EOK || (err == ENOSPC && doalloc && Full(View()) && Ref(View(), Direct(ino, fb)) == 0)
      ensures err == EOK ==> d == Ref(View(), Direct(ino, fb)) && d < |disk| && (doalloc ==> d != 0)
      ensures !doalloc ==> View() == old(View()) && owners == old(owners)
      ensures Ref(old(View()), Direct(ino, fb)) != 0 ==> View() == old(View())
      ensures Room(old(View()), ino) <= Room(View(), ino) + if err == EOK then 1 else 0
      ensures Grew(old(View()), View(), old(owners), ino, 512 * fb, 512 * fb + 1)
    {
      hide MapSaved, Bitmap.BitsOf, Owned, Clean, FileBlock, DecodeInode, ToWords, FromWords, Grew;
      NoChange(View(), owners);
      GrewNone(View(), owners, ino, 512 * fb, 512 * fb + 1);
      assert Ref(View(), Direct(ino, fb)) == vnodes[ino].inode.direct[fb];
      var block := vnodes[ino].inode.direct[fb];
      if block == 0 && doalloc {
        err, block := Balloc();
        if err != EOK {
          return err, 0;
        }
        GrowStep(old(View()), owners, Direct(ino, fb), block);
        GrewOne(old(View()), owners, Direct(ino, fb), block, 512 * fb, 512 * fb + 1);
        OneLess(old(View()), View(), block);
        // remember what we allocated; mark inode dirty
        var x := vnodes[ino].inode;
        vnodes := vnodes[ino := vnodes[ino].(inode := x.(direct := x.direct[fb := block]), dirty := true)];
        owners := owners[block := Direct(ino, fb)];
        assert View() == Grow(old(View()), Direct(ino, fb), block);
      }
      CheckUsed(block, Direct(ino, fb));
      return EOK, block;
    }

    /** Loads the indirect block, allocating it when asked to. */
    method LoadIndirect(ino: nat, doalloc: bool) returns (err: Errno, idblock: u32, idbuf: Words)
      requires Valid() && ino in vnodes
      modifies this, freemap.v
      ensures Valid() && |disk| == old(|disk|)
      ensures SameFiles(old(View()), View(), old(owners)) && SameInodes(old(owners), owners)
      ensures SameTable(old(View()), View()) && OnlyVnode(old(View()), View(), ino) && old(View()).used <= View().used
      ensures err == EOK || err == ENOSPC
      ensures err == ENOSPC ==> doalloc && Full(View()) && ino in vnodes && vnodes[ino].inode.indirect == 0
      ensures err == EOK && doalloc ==> idblock != 0
      ensures err == EOK ==> idblock == vnodes[ino].inode.indirect
      ensures err == EOK && idblock != 0 ==> idblock < |disk| && idbuf == ToWords(disk[idblock])
      ensures !doalloc || old(vnodes[ino]).inode.indirect != 0 ==> View() == old(View()) && owners == old(owners)
      ensures Room(View(), ino) == Room(old(View()), ino)
      ensures forall fb: nat :: fb >= 15 ==> Grew(old(View()), View(), old(owners), ino, 512 * fb, 512 * fb + 1)
    {
      hide MapSaved, Bitmap.BitsOf, Owned, Clean, FileBlock, DecodeInode, ToWords, FromWords, Grew;
      NoChange(View(), owners);
      forall fb: nat ensures Grew(View(), View(), owners, ino, 512 * fb, 512 * fb + 1) {
        GrewNone(View(), owners, ino, 512 * fb, 512 * fb + 1);
      }
      var t := IndirectOf(ino);
      assert Ref(View(), t) == vnodes[ino].inode.indirect;
      idblock, idbuf := vnodes[ino].inode.indirect, ZeroWords;
      if idblock == 0 && !doalloc {
        return EOK, 0, idbuf;
      } else if idblock == 0 {
        err, idblock := Balloc();
        if err != EOK {
          return;
        }
        GrowStep(old(View()), owners, t, idblock);
        forall fb: nat | fb >= 15
          ensures Grew(old(View()), Grow(old(View()), t, idblock), owners, ino, 512 * fb, 512 * fb + 1)
        {
          GrewOne(old(View()), owners, t, idblock, 512 * fb, 512 * fb + 1);
        }
        OneLess(old(View()), View(), idblock);
        vnodes := vnodes[ino := vnodes[ino].(inode := vnodes[ino].inode.(indirect := idblock), dirty := true)];
        owners := owners[idblock := t];
        assert View() == Grow(old(View()), t, idblock);
        ZeroBlockWords();
      } else {
        RefOwned(View(), owners, t);
        idbuf := ToWords(disk[idblock]);
      }
      err := EOK;
    }

    /** The second half of sfs_bmap: blocks reached through the indirect block. */
    method BmapIndirect(ino: nat, idoff: nat, doalloc: bool) returns (err: Errno, d: u32)
      requires Valid() && ino in vnodes && idoff < DBPERIDB
      modifies this, freemap.v
      ensures Valid() && |disk| == old(|disk|)
      ensures SameFiles(old(View()), View(), old(owners)) && SameInodes(old(owners), owners)
      ensures SameTable(old(View()), View()) && OnlyVnode(old(View()), View(), ino) && old(View()).used <= View().used
      ensures err == EOK || (err == ENOSPC && doalloc && Full(View()) && Ref(View(), IndSlot(ino, idoff)) == 0)
      ensures err == EOK ==> d == Ref(View(), IndSlot(ino, idoff)) && d < |disk| && (doalloc ==> d != 0)
      ensures !doalloc ==> View() == old(View()) && owners == old(owners)
      ensures Ref(old(View()), IndSlot(ino, idoff)) != 0 ==> View() == old(View())
      ensures Room(old(View()), ino) <= Room(View(), ino) + if err == EOK then 1 else 0
      ensures Grew(old(View()), View(), old(owners), ino, 512 * (15 + idoff), 512 * (15 + idoff) + 1)
    {
      hide MapSaved, Bitmap.BitsOf, Owned, Clean, FileBlock, DecodeInode, ToWords, FromWords, SameFiles, SameInodes;
      hide Grow, Inv, Room, Grew, Full;
      ghost var at := 512 * (15 + idoff);
      var idblock, idbuf;
      err, idblock, idbuf := LoadIndirect(ino, doalloc);
      if err != EOK {
        return err, 0;
      }
      ghost var fs, o := View(), owners;
      LoadedVnode(fs, o, ino);
      if idblock == 0 {
        DiskNonEmpty(fs, o);
        return EOK, 0;
      }
      var t := IndSlot(ino, idoff);
      var block := idbuf[idoff];
      assert block == Ref(fs, t);
      if block == 0 && doalloc {
        err, block := Balloc();
        if err != EOK {
          return err, 0;
        }
        GrowStep(fs, o, t, block);
        GrowIndSlotDisk(fs, o, t, block);
        // the indirect block is now dirty; write it back
        idbuf := idbuf[idoff := block];
        disk := disk[idblock := FromWords(idbuf)];
        DirtySaved(disk, freemap.v[..]);
        owners := owners[block := t];
        assert View() == Grow(fs, t, block);
        GrewOne(fs, o, t, block, at, at + 1);
        GrewTwice(old(View()), old(owners), fs, o, View(), ino, at, at + 1, at, at + 1);
        SpentOne(fs, View(), ino, block);
        SameTrans(old(View()), fs, View(), old(owners), o, owners);
      }
      CheckUsed(block, t);
      return EOK, block;
    }

    /** sfs_bmap: the disk block behind block fb of a file, allocated on demand. What every
        file contains stays as it was, whether or not the call succeeds. */
    method Bmap(ino: nat, fb: nat, doalloc: bool) returns (err: Errno, d: u32)
      requires Valid() && ino in vnodes
      modifies this, freemap.v
      ensures Valid() && |disk| == old(|disk|)
      ensures SameFiles(old(View()), View(), old(owners)) && SameInodes(old(owners), owners)
      ensures SameTable(old(View()), View()) && OnlyVnode(old(View()), View(), ino) && old(View()).used <= View().used
      ensures err == EOK || err == EINVAL || err == ENOSPC
      ensures err == EINVAL <==> fb >= 15 + 128
      ensures err == EOK ==> d == Ref(View(), if fb < 15 then Direct(ino, fb) else IndSlot(ino, fb - 15))
      ensures err == EOK ==> d == Ref(View(), DataSlot(ino, fb)) && d < |disk| && (doalloc ==> d != 0)
      ensures err == ENOSPC ==> doalloc && Full(View()) && Ref(View(), DataSlot(ino, fb)) == 0
      ensures !doalloc || err == EINVAL ==> View() == old(View()) && owners == old(owners)
      ensures Ref(old(View()), DataSlot(ino, fb)) != 0 ==> View() == old(View())
      ensures Room(old(View()), ino) <= Room(View(), ino) + if err == EOK then 1 else 0
      ensures Grew(old(View()), View(), old(owners), ino, 512 * fb, 512 * fb + 1)
    {
      hide MapSaved, Ref, Inv, Full, SameTable, SameFiles, SameInodes, Room, Grew;
      NoChange(View(), owners);
      GrewNone(View(), owners, ino, 512 * fb, 512 * fb + 1);
      if fb < NDIRECT {
        err, d := BmapDirect(ino, fb, doalloc);
        return;
      }
      var fb' := fb - NDIRECT;
      var idnum, idoff := fb' / DBPERIDB, fb' % DBPERIDB;
      // there is only one indirect block
      if idnum > 0 {
        return EINVAL, 0;
      }
      err, d := BmapIndirect(ino, idoff, doalloc);
    }

    /** The "marked free" panic cannot happen: a mapped block has its bit set. */
    method CheckUsed(block: u32, s: Slot)
      requires Valid() && SlotOk(owners, s) && block == Ref(View(), s)
      ensures block < |disk|
    {
      hide MapSaved, Bitmap.BitsOf, Ref, Clean, Owned;
      DiskNonEmpty(View(), owners);
      if block != 0 {
        RefOwned(View(), owners, s);
        var used := Bused(block);
        if !used {
          assert false;   // panic: data block marked free
        }
      }
    }

    // -------------------------------------------------------------- file I/O

    /** The block buffer of sfs_partialio: block d, or zeros where there is none. */
    method FetchBlock(d: nat) returns (iobuf: array<byte>)
      requires d < |disk|
      ensures fresh(iobuf) && iobuf[..] == (if d == 0 then ZeroBlock else disk[d])
    {
      iobuf := new byte[512](_ => 0);
      if d != 0 {
        var blk := disk[d];
        forall k | 0 <= k < 512 {
          iobuf[k] := blk[k];
        }
      }
    }

    /** sfs_partialio: part of one block, by way of a buffer. */
    method PartialIo(ino: nat, uio: Uio, skip: nat, len: nat) returns (err: Errno)
      requires Valid() && ino in vnodes && uio.Valid() && Apart(uio)
      requires skip == uio.offset % 512 && skip + len <= 512 && len <= uio.resid
      modifies this, freemap.v, uio, uio.mem
      ensures uio.Valid()
      ensures err == EOK || err == EINVAL || err == ENOSPC
      ensures err == EINVAL <==> old(uio.offset) / 512 >= MAXBLOCKS
      ensures err == ENOSPC ==> uio.rw == UioWrite && NoRoom(View(), ino, uio.offset)
      ensures uio.Advanced(old(uio.base), old(uio.len), old(uio.offset), old(uio.resid), if err == EOK then len else 0)
      ensures Valid() && Moved(old(View()), old(owners), View(), owners, uio.rw, ino, old(uio.offset),
                               old(uio.mem[..]), uio.mem[..], old(uio.base), if err == EOK then len else 0)
      ensures Room(old(View()), ino) <= Room(View(), ino) + if err == EOK then 1 else 0
      ensures FileBlock(old(View()), ino, old(uio.offset) / 512) != ZeroBlock ==> View().used == old(View()).used
      ensures Grew(old(View()), View(), old(owners), ino, old(uio.offset), old(uio.offset) + 1)
    {
      hide Amount, Residue, Grew;
      hide MapSaved, Bitmap.BitsOf, Inv, FileBlock, Splice, Ref, Full, OnlyVnode, SameFiles, SameInodes, SameTable;
      hide IoStep, Stored, Bytes, Moved, Room;
      var doalloc := uio.rw == UioWrite;
      var fb := uio.offset / 512;
      SameTableKeys(View(), ino);
      MappedBlock(View(), ino, fb);
      var d;
      err, d := Bmap(ino, fb, doalloc);
      QuietMove(old(View()), old(owners), View(), owners, uio.rw, ino, uio.offset, uio.mem[..], uio.base);
      MappedBlock(View(), ino, fb);
      GrewByte(old(View()), View(), old(owners), ino, uio.offset);
      if err != EOK {
        return;
      }
      ghost var fs, o := View(), owners;
      ghost var fv := freemap.v[..];
      assert MapSaved(fs.disk, fv, freemapdirty);
      var iobuf := FetchBlock(d);
      assert Min(len, uio.resid) == len && uio.offset == 512 * fb + skip;
      assert uio.mem[..] == old(uio.mem[..]);
      ghost var blk0 := iobuf[..];
      uio.Move(iobuf, skip, len);
      assert uio.rw == UioRead ==> uio.mem[..] == Splice(old(uio.mem[..]), old(uio.base), blk0[skip..skip + len]);
      assert uio.rw == UioWrite ==> iobuf[..] == Splice(blk0, skip, old(uio.mem[..])[old(uio.base)..uio.base]);
      if uio.rw == UioWrite {
        assert freemap.v[..] == fv;
        DataOwned(fs, o, ino, fb, d);
        SavedWrite(fs, o, fv, freemapdirty, d, iobuf[..]);
        disk := disk[d := iobuf[..]];
        GrewData(old(View()), old(owners), fs, o, ino, fb, d, iobuf[..]);
        SameRoom(fs, View(), ino);
        GrewByte(old(View()), View(), old(owners), ino, old(uio.offset));
        WriteMove(fs, o, ino, fb, d, skip, uio.mem[..], old(uio.base), len);
      } else {
        ReadMove(fs, o, ino, fb, skip, old(uio.mem[..]), old(uio.base), len);
      }
      MovedTwice(old(View()), old(owners), fs, o, View(), owners, uio.rw, ino, old(uio.offset),
                 old(uio.mem[..]), old(uio.mem[..]), uio.mem[..], old(uio.base), 0, len);
    }

    /** sfs_rwblock on a fault-free device: one sector at the uio's offset. */
    method RwBlock(uio: Uio)
      requires uio.Valid() && uio.resid == 512 && uio.offset % 512 == 0 && uio.offset / 512 < |disk| && Apart(uio)
      modifies this`disk, uio, uio.mem
      ensures uio.Valid() && uio.Advanced(old(uio.base), old(uio.len), old(uio.offset), old(uio.resid), 512)
      ensures uio.rw == UioRead ==>
                disk == old(disk) &&
                uio.mem[..] == Splice(old(uio.mem[..]), old(uio.base), disk[old(uio.offset) / 512])
      ensures uio.rw == UioWrite ==>
                uio.mem[..] == old(uio.mem[..]) &&
                disk == old(disk)[old(uio.offset) / 512 := old(uio.mem[..])[old(uio.base)..old(uio.base) + 512]]
    {
      hide MapSaved, Splice;
      var b := uio.offset / 512;
      var blk := disk[b];
      var sector := new byte[512](k requires 0 <= k < 512 => blk[k]);
      assert sector[..] == blk;
      assert sector[..][0..512] == disk[b];
      uio.Move(sector, 0, 512);
      if uio.rw == UioWrite {
        SpliceAll(old(disk)[b], old(uio.mem[..])[old(uio.base)..uio.base]);
        disk := disk[b := sector[..]];
      }
    }

    /** sfs_blockio: one whole block straight between the device and the region. */
    method BlockIo(ino: nat, uio: Uio) returns (err: Errno)
      requires Valid() && ino in vnodes && uio.Valid() && Apart(uio)
      requires uio.offset % 512 == 0 && uio.resid >= 512
      modifies this, freemap.v, uio, uio.mem
      ensures uio.Valid()
      ensures err == EOK || err == EINVAL || err == ENOSPC
      ensures err == EINVAL <==> old(uio.offset) / 512 >= MAXBLOCKS
      ensures err == ENOSPC ==> uio.rw == UioWrite && NoRoom(View(), ino, uio.offset)
      ensures uio.Advanced(old(uio.base), old(uio.len), old(uio.offset), old(uio.resid), if err == EOK then 512 else 0)
      ensures Valid() && Moved(old(View()), old(owners), View(), owners, uio.rw, ino, old(uio.offset),
                               old(uio.mem[..]), uio.mem[..], old(uio.base), if err == EOK then 512 else 0)
      ensures Room(old(View()), ino) <= Room(View(), ino) + if err == EOK then 1 else 0
      ensures Grew(old(View()), View(), old(owners), ino, old(uio.offset), old(uio.offset) + 1)
    {
      hide Grew;
      hide MapSaved, Bitmap.BitsOf, Inv, FileBlock, Splice, Ref, Full, OnlyVnode, SameFiles, SameInodes, SameTable;
      hide IoStep, Stored, Bytes, Moved, Room;
      var doalloc := uio.rw == UioWrite;
      var fb := uio.offset / 512;
      SameTableKeys(View(), ino);
      MappedBlock(View(), ino, fb);
      var d;
      err, d := Bmap(ino, fb, doalloc);
      QuietMove(old(View()), old(owners), View(), owners, uio.rw, ino, uio.offset, uio.mem[..], uio.base);
      MappedBlock(View(), ino, fb);
      GrewByte(old(View()), View(), old(owners), ino, uio.offset);
      if err != EOK {
        return;
      }
      ghost var fs, o := View(), owners;
      if d == 0 {
        uio.MoveZeros(512);
      } else {
        // substitute an offset and a residue that make sense to the device
        var saveoff, diskoff := uio.offset, d as nat * 512;
        uio.offset := diskoff;
        var saveres, diskres := uio.resid, 512;
        uio.resid := diskres;
        if uio.rw == UioWrite {
          DataOwned(fs, o, ino, fb, d);
          SavedWrite(fs, o, freemap.v[..], freemapdirty, d, uio.mem[..][uio.base..uio.base + 512]);
        }
        RwBlock(uio);
        uio.offset := (uio.offset - diskoff) + saveoff;
        uio.resid := (uio.resid - diskres) + saveres;
      }
      if uio.rw == UioWrite {
        SpliceAll(FileBlock(fs, ino, fb), uio.mem[..][old(uio.base)..uio.base]);
        GrewData(old(View()), old(owners), fs, o, ino, fb, d, uio.mem[..][old(uio.base)..uio.base]);
        GrewByte(old(View()), View(), old(owners), ino, old(uio.offset));
        SameRoom(fs, View(), ino);
        WriteMove(fs, o, ino, fb, d, 0, uio.mem[..], old(uio.base), 512);
      } else {
        ReadMove(fs, o, ino, fb, 0, old(uio.mem[..]), old(uio.base), 512);
        assert FileBlock(fs, ino, fb)[0..512] == FileBlock(fs, ino, fb);
      }
      MovedTwice(old(View()), old(owners), fs, o, View(), owners, uio.rw, ino, old(uio.offset),
                 old(uio.mem[..]), old(uio.mem[..]), uio.mem[..], old(uio.base), 0, 512);
    }

    /** The middle of sfs_io: as many whole blocks as the region has room for. */
    method WholeBlocks(ino: nat, uio: Uio) returns (err: Errno)
      requires Valid() && ino in vnodes && uio.Valid() && Apart(uio) && uio.offset % 512 == 0
      modifies this, freemap.v, uio, uio.mem
      ensures Valid() && uio.Valid() && ino in vnodes && old(uio.offset) <= uio.offset && uio.offset % 512 == 0
      ensures uio.Advanced(old(uio.base), old(uio.len), old(uio.offset), old(uio.resid), uio.offset - old(uio.offset))
      ensures old(uio.offset) < uio.offset ==> uio.offset <= MAXFILE
      ensures Moved(old(View()), old(owners), View(), owners, uio.rw, ino, old(uio.offset),
                    old(uio.mem[..]), uio.mem[..], old(uio.base), uio.offset - old(uio.offset))
      ensures err == EOK ==> uio.resid == old(uio.resid) % 512
      ensures err != EOK ==> uio.resid >= 512
      ensures old(uio.resid) < 512 ==> View() == old(View())
      ensures Room(old(View()), ino) <= Room(View(), ino) + (uio.offset - old(uio.offset)) / 512
      ensures Grew(old(View()), View(), old(owners), ino, old(uio.offset), old(uio.offset) + old(uio.resid))
      ensures err == EOK || (err == EINVAL && uio.offset >= MAXFILE) ||
              (err == ENOSPC && uio.rw == UioWrite && NoRoom(View(), ino, uio.offset))
    {
      hide MapSaved, Bitmap.BitsOf, Inv, Full, Moved, Room, Grew, SameInodes;
      ghost var off, base, mem := uio.offset, uio.base, uio.mem[..];
      ghost var fs0, o0, end := View(), owners, uio.offset + uio.resid;
      NoChange(fs0, o0);
      GrewNone(fs0, o0, ino, off, end);
      QuietMove(fs0, o0, fs0, o0, uio.rw, ino, off, mem, base);
      var nblocks := uio.resid / 512;
      for i := 0 to nblocks
        invariant Valid() && uio.Valid() && ino in vnodes
        invariant uio.offset == off + 512 * i && (i > 0 ==> uio.offset <= MAXFILE)
        invariant uio.Advanced(base, old(uio.len), off, old(uio.resid), 512 * i)
        invariant Moved(fs0, o0, View(), owners, uio.rw, ino, off, mem, uio.mem[..], base, 512 * i)
        invariant (i == 0 ==> View() == fs0) && Room(fs0, ino) <= Room(View(), ino) + i
        invariant Grew(fs0, View(), o0, ino, off, end) && SameInodes(o0, owners)
      {
        ghost var fs, o, m, p := View(), owners, uio.mem[..], uio.offset;
        err := BlockIo(ino, uio);
        MovedTwice(fs0, o0, fs, o, View(), owners, uio.rw, ino, off, mem, m, uio.mem[..], base,
                   p - off, uio.offset - p);
        MovedTable(fs0, o0, View(), owners, uio.rw, ino, off, mem, uio.mem[..], base, uio.offset - off);
        MovedInodes(fs0, o0, View(), owners, uio.rw, ino, off, mem, uio.mem[..], base, uio.offset - off);
        GrewTwice(fs0, o0, fs, o, View(), ino, off, end, p, p + 1);
        if err != EOK {
          return;
        }
      }
      err := EOK;
    }

    /** The start of sfs_io: the rest of a block when the offset is not block-aligned. */
    method LeadingPartial(ino: nat, uio: Uio) returns (err: Errno)
      requires Valid() && ino in vnodes && uio.Valid() && Apart(uio)
      modifies this, freemap.v, uio, uio.mem
      ensures Valid() && uio.Valid() && ino in vnodes && old(uio.offset) <= uio.offset
      ensures uio.Advanced(old(uio.base), old(uio.len), old(uio.offset), old(uio.resid), uio.offset - old(uio.offset))
      ensures old(uio.offset) < uio.offset ==> uio.offset <= MAXFILE
      ensures Moved(old(View()), old(owners), View(), owners, uio.rw, ino, old(uio.offset),
                    old(uio.mem[..]), uio.mem[..], old(uio.base), uio.offset - old(uio.offset))
      ensures err == EOK ==> uio.resid == 0 || uio.offset % 512 == 0
      ensures err != EOK ==> uio.offset == old(uio.offset)
      ensures old(uio.offset) % 512 == 0 ==> err == EOK && View() == old(View()) && uio.offset == old(uio.offset)
      ensures Room(old(View()), ino) <= Room(View(), ino) + Cost(old(uio.offset), uio.offset, err)
      ensures Grew(old(View()), View(), old(owners), ino, old(uio.offset), old(uio.offset) + old(uio.resid))
      ensures FileBlock(old(View()), ino, old(uio.offset) / 512) != ZeroBlock ==> View().used == old(View()).used
      ensures err == EOK || (err == EINVAL && uio.offset >= MAXFILE) ||
              (err == ENOSPC && uio.rw == UioWrite && NoRoom(View(), ino, uio.offset))
    {
      hide MapSaved, Bitmap.BitsOf, Inv, Full, Moved, SameFiles, SameInodes, SameTable, Room, FileBlock, Grew;
      ghost var fs, o, mem, base, off := View(), owners, uio.mem[..], uio.base, uio.offset;
      ghost var end := off + uio.resid;
      NoChange(fs, o);
      GrewNone(fs, o, ino, off, end);
      QuietMove(fs, o, fs, o, uio.rw, ino, off, mem, base);
      err := EOK;
      var blkoff := uio.offset % 512;
      if blkoff != 0 {
        var skip, len := blkoff, 512 - blkoff;
        if len > uio.resid {
          len := uio.resid;
        }
        AlignUp(uio.offset);
        err := PartialIo(ino, uio, skip, len);
        GrewWider(fs, View(), o, ino, off, end);
      }
      MovedTable(fs, o, View(), owners, uio.rw, ino, off, mem, uio.mem[..], base, uio.offset - off);
    }

    /** The end of sfs_io, from a block boundary on: whole blocks, and then the start of one. */
    method FromBoundary(ino: nat, uio: Uio) returns (err: Errno)
      requires Valid() && ino in vnodes && uio.Valid() && Apart(uio) && uio.offset % 512 == 0
      modifies this, freemap.v, uio, uio.mem
      ensures Valid() && uio.Valid() && old(uio.offset) <= uio.offset
      ensures uio.Advanced(old(uio.base), old(uio.len), old(uio.offset), old(uio.resid), uio.offset - old(uio.offset))
      ensures old(uio.offset) < uio.offset ==> uio.offset <= MAXFILE
      ensures Moved(old(View()), old(owners), View(), owners, uio.rw, ino, old(uio.offset),
                    old(uio.mem[..]), uio.mem[..], old(uio.base), uio.offset - old(uio.offset))
      ensures err == EOK ==> uio.resid == 0
      ensures err != EOK ==> StoppedAt(old(uio.offset), old(uio.resid), uio.offset)
      ensures err == EOK || (err == EINVAL && uio.offset >= MAXFILE) ||
              (err == ENOSPC && uio.rw == UioWrite && NoRoom(View(), ino, uio.offset))
      ensures Room(old(View()), ino) <= Room(View(), ino) + Cost(old(uio.offset), uio.offset, err)
      ensures Grew(old(View()), View(), old(owners), ino, old(uio.offset), old(uio.offset) + old(uio.resid))
      ensures err != EOK ==>
                Cost(old(uio.offset), uio.offset, err) < Blocks(old(uio.offset), old(uio.offset) + old(uio.resid))
      ensures InPlace(old(View()), ino, old(uio.offset), old(uio.resid)) ==> View().used == old(View()).used
    {
      hide MapSaved, Bitmap.BitsOf, Inv, NoRoom, Moved, Room, FileBlock, Grew;
      ghost var fs0, o0, mem, base, off := View(), owners, uio.mem[..], uio.base, uio.offset;
      ghost var end := off + uio.resid;
      err := WholeBlocks(ino, uio);
      if err != EOK || uio.resid == 0 {
        return;
      }
      ghost var fs, o, m, p := View(), owners, uio.mem[..], uio.offset;
      err := PartialIo(ino, uio, 0, uio.resid);
      MovedInodes(fs0, o0, fs, o, uio.rw, ino, off, mem, m, base, p - off);
      GrewTwice(fs0, o0, fs, o, View(), ino, off, end, p, p + 1);
      MovedTwice(fs0, o0, fs, o, View(), owners, uio.rw, ino, off, mem, m, uio.mem[..], base, p - off, uio.offset - p);
    }

    /** The body of sfs_io: a leading partial block, whole blocks, a trailing partial block. */
    method Transfer(ino: nat, uio: Uio) returns (err: Errno)
      requires Valid() && ino in vnodes && uio.Valid() && Apart(uio)
      modifies this, freemap.v, uio, uio.mem
      ensures Valid() && uio.Valid() && old(uio.offset) <= uio.offset
      ensures uio.Advanced(old(uio.base), old(uio.len), old(uio.offset), old(uio.resid), uio.offset - old(uio.offset))
      ensures old(uio.offset) < uio.offset ==> uio.offset <= MAXFILE
      ensures Moved(old(View()), old(owners), View(), owners, uio.rw, ino, old(uio.offset),
                    old(uio.mem[..]), uio.mem[..], old(uio.base), uio.offset - old(uio.offset))
      ensures err == EOK ==> uio.resid == 0
      ensures err != EOK ==> StoppedAt(old(uio.offset), old(uio.resid), uio.offset)
      ensures err == EOK || (err == EINVAL && uio.offset >= MAXFILE) ||
              (err == ENOSPC && uio.rw == UioWrite && NoRoom(View(), ino, uio.offset))
      ensures Room(old(View()), ino) <= Room(View(), ino) + Cost(old(uio.offset), uio.offset, err)
      ensures Grew(old(View()), View(), old(owners), ino, old(uio.offset), old(uio.offset) + old(uio.resid))
      ensures err != EOK ==>
                Cost(old(uio.offset), uio.offset, err) < Blocks(old(uio.offset), old(uio.offset) + old(uio.resid))
      ensures InPlace(old(View()), ino, old(uio.offset), old(uio.resid)) ==> View().used == old(View()).used
    {
      hide MapSaved, Bitmap.BitsOf, Inv, NoRoom, Moved, Room, FileBlock, Cost, Blocks, Grew;
      ghost var fs0, o0, mem, base, off := View(), owners, uio.mem[..], uio.base, uio.offset;
      ghost var end := off + uio.resid;
      err := LeadingPartial(ino, uio);
      if off % 512 != 0 {
        CostFirst(off, old(uio.resid), uio.offset, err);
      }
      if err != EOK || uio.resid == 0 {
        return;
      }
      ghost var fs, o, m, p := View(), owners, uio.mem[..], uio.offset;
      err := FromBoundary(ino, uio);
      MovedInodes(fs0, o0, fs, o, uio.rw, ino, off, mem, m, base, p - off);
      GrewTwice(fs0, o0, fs, o, View(), ino, off, end, p, end);
      CostJoin(off, p, uio.offset, off + old(uio.resid), err);
      MovedTwice(fs0, o0, fs, o, View(), owners, uio.rw, ino, off, mem, m, uio.mem[..], base, p - off, uio.offset - p);
    }

    /** The end of sfs_io for a write: the size is raised to the final offset. */
    method RaiseSize(ino: nat, pos: nat, ghost fs0: FS, ghost o0: Owners, ghost off: nat, ghost d: seq<byte>)
      requires Valid() && ino in fs0.vn && IsInode(o0, ino) && pos == off + |d| < 0x8000_0000
      requires IoStep(fs0, o0, View(), owners, ino, off, d)
      modifies this`vnodes
      ensures Valid() && View().used == old(View()).used && Room(View(), ino) == Room(old(View()), ino)
      ensures NoRoom(old(View()), ino, pos) ==> NoRoom(View(), ino, pos)
      ensures forall s :: Ref(View(), s) == Ref(old(View()), s)
      ensures Written(fs0, View(), o0, ino, off, d) && SameInodes(o0, owners)
      ensures SameTable(fs0, View()) && OnlyVnode(fs0, View(), ino) && |disk| == |fs0.disk| && fs0.used <= View().used
    {
      hide MapSaved, Bitmap.BitsOf, Inv, SameInodes, SameTable, OnlyVnode, IoStep, Written, Room, FileBlock, Ref;
      ghost var fs := View();
      FinishWrite(fs0, o0, fs, owners, ino, off, d);
      if pos > vnodes[ino].inode.size {
        vnodes := vnodes[ino := vnodes[ino].(inode := vnodes[ino].inode.(size := pos), dirty := true)];
      }
      assert View() == SizeRaised(fs, ino, pos);
      SameRoom(fs, View(), ino);
      SameBlockRaised(fs, ino, pos);
      forall s ensures Ref(View(), s) == Ref(fs, s) { SameRefRaised(fs, ino, pos, s); }
    }

    /** sfs_io. Writing stores a prefix of the data, all of it on success, and raises the size
        to the final offset, also when nothing was stored. Reading delivers the bytes up to
        the end of the file. */
    method Io(ino: nat, uio: Uio) returns (err: Errno)
      requires Valid() && ino in vnodes && uio.Valid() && Apart(uio)
      requires uio.offset + uio.resid < 0x8000_0000
      modifies this, freemap.v, uio, uio.mem
      ensures Valid() && uio.Valid() && old(uio.offset) <= uio.offset
      ensures uio.Advanced(old(uio.base), old(uio.len), old(uio.offset), old(uio.resid), uio.offset - old(uio.offset))
      ensures old(uio.offset) < uio.offset ==> uio.offset <= MAXFILE
      ensures err == EOK || (err == EINVAL && uio.offset >= MAXFILE) ||
              (err == ENOSPC && uio.rw == UioWrite && NoRoom(View(), ino, uio.offset))
      ensures err != EOK ==> StoppedAt(old(uio.offset), old(uio.resid), uio.offset)
      ensures uio.rw == UioWrite ==>
                && uio.mem[..] == old(uio.mem[..]) && (err == EOK ==> uio.resid == 0)
                && SameInodes(old(owners), owners) && SameTable(old(View()), View())
                && OnlyVnode(old(View()), View(), ino)
                && |disk| == old(|disk|) && old(View()).used <= View().used
                && Room(old(View()), ino) <= Room(View(), ino) + Cost(old(uio.offset), uio.offset, err)
                && Grew(old(View()), View(), old(owners), ino, old(uio.offset), old(uio.offset) + old(uio.resid))
                && (err != EOK ==>
                      Cost(old(uio.offset), uio.offset, err) <
                      Blocks(old(uio.offset), old(uio.offset) + old(uio.resid)))
                && (InPlace(old(View()), ino, old(uio.offset), old(uio.resid)) ==> View().used == old(View()).used)
                && Written(old(View()), View(), old(owners), ino, old(uio.offset), uio.mem[..][old(uio.base)..uio.base])
      ensures uio.rw == UioRead ==>
                var off, size := old(uio.offset), old(vnodes[ino].inode.size);
                && View() == old(View()) && owners == old(owners)
                && (if off >= size then err == EOK && uio.offset == off
                    else if err == EOK then uio.offset <= size && uio.offset == Min(off + old(uio.resid), size)
                    else uio.offset < size)
                && uio.mem[..] == Splice(old(uio.mem[..]), old(uio.base), Bytes(View(), ino, off, uio.offset - off))
    {
      hide MapSaved, Bitmap.BitsOf, Inv, SameInodes, SameTable, OnlyVnode, IoStep, Splice, Written, Content, Bytes;
      hide Room, Cost, Blocks, InPlace, NoRoom, FileBlock, Grew, Ref;
      ghost var fs0, o0, mem, base, off := View(), owners, uio.mem[..], uio.base, uio.offset;
      LoadedVnode(fs0, o0, ino);
      var extraresid := 0;
      if uio.rw == UioRead {
        var size: nat := vnodes[ino].inode.size;
        var endpos := uio.offset + uio.resid;
        if uio.offset >= size {
          NoChange(fs0, o0);
          QuietMove(fs0, o0, fs0, o0, UioRead, ino, off, mem, base);
          return EOK;
        }
        if endpos > size {
          extraresid := endpos - size;
          assert uio.resid > extraresid;
          uio.resid := uio.resid - extraresid;
        }
      }
      err := Transfer(ino, uio);
      if uio.rw == UioWrite {
        ghost var fs := View();
        RaiseSize(ino, uio.offset, fs0, o0, off, mem[base..uio.base]);
        GrewSame(fs0, fs, View(), o0, ino, off, off + old(uio.resid));
      }
      uio.resid := uio.resid + extraresid;
    }

    // -------------------------------------------------------------- truncation

    /** The first loop of sfs_truncate: direct blocks past the new length. */
    method CutDirectBlocks(ino: nat, bl: nat)
      requires Valid() && ino in vnodes
      modifies this`vnodes, this`freemapdirty, freemap.v
      ensures MapOk() && ino in vnodes
      ensures View().used == old(View()).used - CutBlocks(old(vnodes[ino]).inode.direct, 0, bl)
      ensures vnodes == old(vnodes)[ino := old(vnodes[ino]).(
                          inode := old(vnodes[ino]).inode.(direct := CutDirect(old(vnodes[ino]).inode.direct, bl)),
                          dirty := vnodes[ino].dirty)]
    {
      hide MapSaved, Bitmap.BitsOf, Inv, CutBlocks, CutDirect;
      ghost var fs0 := View();
      ghost var x := vnodes[ino].inode;
      assert CutBlocks(x.direct[..0], 0, bl) == {} by { NoCuts(x.direct, 0, bl); }
      for i := 0 to NDIRECT
        invariant MapOk() && ino in vnodes
        invariant View().used == fs0.used - CutBlocks(x.direct[..i], 0, bl)
        invariant vnodes == fs0.vn[ino := fs0.vn[ino].(
                              inode := x.(direct := vnodes[ino].inode.direct), dirty := vnodes[ino].dirty)]
        invariant forall k :: 0 <= k < 15 ==> vnodes[ino].inode.direct[k] == if k < i && k >= bl then 0 else x.direct[k]
      {
        var block := vnodes[ino].inode.direct[i];
        CutBlocksStep(x.direct, 0, bl, i);
        if i >= bl && block != 0 {
          DirectStillUsed(fs0, owners, ino, bl, i);
          Bfree(block);
          var y := vnodes[ino].inode;
          vnodes := vnodes[ino := vnodes[ino].(inode := y.(direct := y.direct[i := 0]), dirty := true)];
        }
      }
      assert x.direct[..15] == x.direct;
      assert vnodes[ino].inode.direct == CutDirect(x.direct, bl);
    }

    /** The second loop: entries of the indirect block past the new length. */
    method CutIndirectBlocks(ino: nat, w: Words, bl: nat, ghost fs0: FS)
      returns (idbuf: Words, hasnonzero: bool, iddirty: bool)
      requires MapOk() && Inv(fs0, owners) && ino in fs0.vn && 0 < fs0.vn[ino].inode.indirect < |fs0.disk|
      requires w == ToWords(fs0.disk[fs0.vn[ino].inode.indirect])
      requires View().used == fs0.used - CutBlocks(fs0.vn[ino].inode.direct, 0, bl)
      modifies this`freemapdirty, freemap.v
      ensures MapOk()
      ensures View().used == old(View()).used - CutBlocks(w, 15, bl)
      ensures idbuf == CutWords(w, bl)
      ensures hasnonzero == (idbuf != ZeroWords) && iddirty == (idbuf != w)
    {
      hide MapSaved, Bitmap.BitsOf, Inv, CutBlocks, ToWords;
      idbuf, hasnonzero, iddirty := w, false, false;
      ghost var used0 := View().used;
      assert CutBlocks(w[..0], 15, bl) == {} by { NoCuts(w, 15, bl); }
      for j := 0 to DBPERIDB
        invariant MapOk()
        invariant View().used == used0 - CutBlocks(w[..j], 15, bl)
        invariant forall k :: 0 <= k < 128 ==> idbuf[k] == if k < j && !Kept(bl, 15 + k) then 0 else w[k]
        invariant hasnonzero == exists k :: 0 <= k < j && idbuf[k] != 0
        invariant iddirty == exists k :: 0 <= k < j && idbuf[k] != w[k]
      {
        CutBlocksStep(w, 15, bl, j);
        if bl < NDIRECT + j && idbuf[j] != 0 {
          IndStillUsed(fs0, owners, ino, bl, j);
          Bfree(idbuf[j]);
          idbuf := idbuf[j := 0];
          iddirty := true;
        }
        if idbuf[j] != 0 {
          hasnonzero := true;
        }
      }
      assert w[..128] == w;
      assert idbuf == CutWords(w, bl);
      assert !iddirty ==> idbuf == w;
      assert !hasnonzero ==> idbuf == ZeroWords;
    }

    /** The part of sfs_truncate that deals with the indirect block. */
    method TruncateIndirect(ino: nat, bl: nat, ghost fs0: FS)
      requires MapOk() && Inv(fs0, owners) && ino in fs0.vn && fs0.vn[ino].inode.indirect < |fs0.disk| && ino in vnodes
      requires disk == fs0.disk && vnodes[ino].inode.indirect == fs0.vn[ino].inode.indirect
      requires View().used == fs0.used - CutBlocks(fs0.vn[ino].inode.direct, 0, bl)
      modifies this`disk, this`vnodes, this`freemapdirty, freemap.v
      ensures MapOk() && ino in vnodes
      ensures disk == CutDisk(fs0, fs0.vn[ino].inode, bl) && View().used == fs0.used - FreedBlocks(fs0, ino, bl)
      ensures vnodes == old(vnodes)[ino := old(vnodes[ino]).(
                          inode := old(vnodes[ino]).inode.(
                            indirect := if FreesIndirect(fs0, fs0.vn[ino].inode, bl) then 0
                                        else fs0.vn[ino].inode.indirect),
                          dirty := vnodes[ino].dirty)]
    {
      hide MapSaved, Bitmap.BitsOf, Inv, CutBlocks, CutWords, ToWords, FromWords;
      var idblock := vnodes[ino].inode.indirect;
      if bl < NDIRECT + DBPERIDB - 1 && idblock != 0 {
        var idbuf, hasnonzero, iddirty := CutIndirectBlocks(ino, ToWords(disk[idblock]), bl, fs0);
        if !hasnonzero {
          IndirectStillUsed(fs0, owners, ino, bl);
          Bfree(idblock);
          vnodes := vnodes[ino := vnodes[ino].(inode := vnodes[ino].inode.(indirect := 0), dirty := true)];
        } else if iddirty {
          IndirectOwned(fs0, owners, ino);
          SavedWrite(fs0, owners, freemap.v[..], freemapdirty, idblock, FromWords(idbuf));
          disk := disk[idblock := FromWords(idbuf)];
        }
      }
    }

    /** sfs_truncate */
    method Truncate(ino: nat, len: u32)
      requires Valid() && ino in vnodes && len + 511 < 0x8000_0000
      modifies this, freemap.v
      ensures Valid() && SameInodes(old(owners), owners) && SameTable(old(View()), View())
      ensures |disk| == old(|disk|) && View().used <= old(View()).used
      ensures old(vnodes[ino]).inode.indirect < |disk| && View() == Truncated(old(View()), ino, len)
      // a direct slot is cleared when its block begins at len or later, and an indirect one when
      // the block before it does
      ensures forall k :: 0 <= k < 15 ==>
                Ref(View(), Direct(ino, k)) == if 512 * k < len then Ref(old(View()), Direct(ino, k)) else 0
      ensures forall j :: 0 <= j < 128 ==>
                Ref(View(), IndSlot(ino, j)) == if 512 * (14 + j) < len then Ref(old(View()), IndSlot(ino, j)) else 0
      ensures Ref(View(), IndirectOf(ino)) ==
              if LosesIndirect(old(View()), ino, len) then 0 else Ref(old(View()), IndirectOf(ino))
      // and their blocks, and no others, become free
      ensures forall b: nat :: b in View().used <==> b in old(View()).used && !Loses(old(View()), ino, len, b)
    {
      hide MapSaved, Bitmap.BitsOf, Inv, CutBlocks, CutDirect, FreesIndirect, CutDisk, SameInodes, SameTable;
      hide CutOwners, FreedBlocks, Ref, Loses, LosesIndirect;
      ghost var fs0 := View();
      TruncatedOk(fs0, owners, ino, len);
      TruncatedSlots(fs0, owners, ino, len);
      forall b: nat
        ensures b in Truncated(fs0, ino, len).used <==> b in fs0.used && !Loses(fs0, ino, len, b)
      {
        TruncatedUsed(fs0, owners, ino, len, b);
      }
      var bl := (len + 511) / 512;
      CutDirectBlocks(ino, bl);
      TruncateIndirect(ino, bl, fs0);
      vnodes := vnodes[ino := vnodes[ino].(inode := vnodes[ino].inode.(size := len), dirty := true)];
      owners := CutOwners(fs0, owners, ino, bl);
      assert View() == Truncated(fs0, ino, len);
    }

    // -------------------------------------------------------------- vnodes

    /** sfs_sync_inode, sfs_fsync */
    method SyncInode(ino: nat)
      requires Valid() && ino in vnodes
      modifies this`disk, this`vnodes
      ensures Valid() && ino < |disk| && |disk| == old(|disk|) && View() == Synced(old(View()), ino)
      ensures SameFiles(old(View()), View(), owners) && SameTable(old(View()), View())
      ensures forall j :: IsInode(owners, j) ==> Cur(View(), j) == Cur(old(View()), j)
      ensures !vnodes[ino].dirty && DecodeInode(disk[ino]) == vnodes[ino].inode
    {
      hide MapSaved, Bitmap.BitsOf, Inv, SameFiles, EncodeInode, DecodeInode, Cur, IsInode;
      LoadedVnode(View(), owners, ino);
      SyncedInv(View(), owners, ino);
      if vnodes[ino].dirty {
        InodeOwned(owners, ino);
        SavedWrite(View(), owners, freemap.v[..], freemapdirty, ino, EncodeInode(vnodes[ino].inode));
        disk := disk[ino := EncodeInode(vnodes[ino].inode)];
        vnodes := vnodes[ino := vnodes[ino].(dirty := false)];
        assert View() == Synced(old(View()), ino);
      } else {
        CleanVnode(View(), owners, ino);
      }
    }

    /** sfs_loadvnode without a forced type: takes a reference on the vnode, reading the inode
        from disk if it is not in the table. */
    method LoadVnode(ino: nat)
      requires Valid() && IsInode(owners, ino)
      requires Cur(View(), ino).itype == 1 || Cur(View(), ino).itype == 2
      modifies this`vnodes
      ensures Valid() && ino in vnodes && vnodes[ino].inode == Cur(old(View()), ino)
      ensures vnodes[ino].refs == (if ino in old(vnodes) then old(vnodes)[ino].refs else 0) + 1
      ensures forall j :: j != ino ==>
                (j in vnodes <==> j in old(vnodes)) && (j in vnodes ==> vnodes[j] == old(vnodes)[j])
      ensures SameFiles(old(View()), View(), owners)
      ensures forall j :: Cur(View(), j) == Cur(old(View()), j)
    {
      hide MapSaved, Bitmap.BitsOf, Inv, SameFiles, DecodeInode;
      ghost var fs0 := View();
      CheckInode(ino);
      if ino in vnodes {
        LoadedVnode(fs0, owners, ino);
        WithRefsInv(fs0, owners, ino, vnodes[ino].refs + 1);
        vnodes := vnodes[ino := vnodes[ino].(refs := vnodes[ino].refs + 1)];
        assert View() == WithRefs(fs0, ino, fs0.vn[ino].refs + 1);
      } else {
        LoadedInv(fs0, owners, ino);
        vnodes := vnodes[ino := Vnode(DecodeInode(disk[ino]), false, 1)];
        assert View() == Loaded(fs0, ino);
      }
    }

    /** The "unallocated block" panics of sfs_loadvnode cannot happen. */
    method CheckInode(ino: nat)
      requires Valid() && IsInode(owners, ino)
      ensures ino < |disk|
    {
      hide MapSaved, Bitmap.BitsOf, Ref, Clean, Owned;
      OwnedAt(View(), owners, ino);
      var used := Bused(ino);
      if !used {
        assert false;   // panic: inode in unallocated block
      }
    }

    /** sfs_makeobj */
    method MakeObj(itype: u16) returns (err: Errno, ino: u32)
      requires Valid() && (itype == 1 || itype == 2)
      modifies this, freemap.v
      ensures Valid() && |disk| == old(|disk|)
      ensures err == EOK || (err == ENOSPC && Full(View()) && View() == old(View()) && owners == old(owners))
      ensures err == EOK ==>
                && ino < |disk| && ino !in old(View()).used && ino !in old(owners) && ino != 0
                && View() == NewInode(old(View()), ino, itype) && owners == old(owners)[ino := InodeOf(ino)]
                && SameFiles(old(View()), View(), old(owners))
                && forall j :: IsInode(old(owners), j) ==> Cur(View(), j) == Cur(old(View()), j)
    {
      hide MapSaved, Bitmap.BitsOf, Inv, SameFiles, DecodeInode, Full, IsInode, Cur;
      ghost var fs0 := View();
      err, ino := Balloc();
      if err != EOK {
        return;
      }
      NewInodeInv(fs0, owners, ino, itype);
      // the cleared block reads back as an inode of type SFS_TYPE_INVAL
      ZeroBlockInode();
      var inode := DecodeInode(disk[ino]);
      assert inode.itype == 0;
      vnodes := vnodes[ino := Vnode(inode.(itype := itype), true, 1)];
      owners := owners[ino := InodeOf(ino)];
      assert View() == NewInode(fs0, ino, itype);
    }

    /** VOP_DECREF and sfs_reclaim. The last reference writes the inode back; a file without
        links is truncated to nothing and its inode freed. */
    method Decref(ino: nat)
      requires Valid() && ino in vnodes
      requires ino == ROOT ==> vnodes[ino].inode.linkcount > 0
      modifies this, freemap.v
      ensures Valid() && |disk| == old(|disk|)
      ensures forall j :: j != ino ==>
                (j in vnodes <==> j in old(vnodes)) && (j in vnodes ==> vnodes[j] == old(vnodes)[j])
      ensures ino in vnodes <==> old(vnodes[ino]).refs > 1
      ensures ino in vnodes ==> vnodes[ino] == old(vnodes[ino]).(refs := old(vnodes[ino]).refs - 1)
      ensures OthersSame(old(View()), View(), old(owners), ino)
      ensures forall j :: j != ino ==> (IsInode(owners, j) <==> IsInode(old(owners), j))
      ensures IsInode(owners, ino) <==> !(old(vnodes[ino]).refs == 1 && old(vnodes[ino]).inode.linkcount == 0)
      ensures IsInode(owners, ino) ==> SameInodes(old(owners), owners) && SameFiles(old(View()), View(), old(owners))
      ensures View().used <= old(View()).used && (IsInode(owners, ino) ==> View().used == old(View()).used)
      ensures !IsInode(owners, ino) && NoBlocks(old(vnodes[ino]).inode) ==> View().used == old(View()).used - {ino}
    {
      hide MapSaved, Bitmap.BitsOf, Inv, SameFiles, DecodeInode, EncodeInode, Truncated, Cur, FileBlock;
      ghost var fs0, o0 := View(), owners;
      LoadedVnode(fs0, o0, ino);
      NoChange(fs0, o0);
      if vnodes[ino].refs > 1 {
        WithRefsInv(fs0, o0, ino, vnodes[ino].refs - 1);
        vnodes := vnodes[ino := vnodes[ino].(refs := vnodes[ino].refs - 1)];
        assert View() == WithRefs(fs0, ino, fs0.vn[ino].refs - 1);
        AllButOne(fs0, View(), o0, ino);
        return;
      }
      if vnodes[ino].inode.linkcount == 0 {
        Erase(ino);
        return;
      }
      SyncInode(ino);
      ghost var fs1 := View();
      DroppedInv(fs1, o0, ino);
      vnodes := vnodes - {ino};
      SameTrans1(fs0, fs1, View(), o0);
      AllButOne(fs0, View(), o0, ino);
    }

    /** sfs_reclaim of a file that nothing refers to any more. */
    method Erase(ino: nat)
      requires Valid() && ino in vnodes && ino != ROOT && vnodes[ino].inode.linkcount == 0
      modifies this, freemap.v
      ensures Valid() && |disk| == old(|disk|) && vnodes == old(vnodes) - {ino} && View().used <= old(View()).used
      ensures OthersSame(old(View()), View(), old(owners), ino)
      ensures !IsInode(owners, ino)
      ensures forall j :: j != ino ==> (IsInode(owners, j) <==> IsInode(old(owners), j))
      ensures NoBlocks(old(vnodes[ino]).inode) ==> View().used == old(View()).used - {ino}
    {
      hide MapSaved, Bitmap.BitsOf, Inv, SameFiles, DecodeInode, EncodeInode, Truncated, Cur, FileBlock;
      ghost var fs0, o0 := View(), owners;
      Truncate(ino, 0);
      TruncatedToNothing(fs0, o0, ino);
      if NoBlocks(fs0.vn[ino].inode) {
        NothingFreed(fs0, ino);
      }
      ghost var fs1, o1 := View(), owners;
      SyncInode(ino);
      ghost var fs2 := View();
      LoadedVnode(fs2, o1, ino);
      Bfree(ino);
      vnodes := vnodes - {ino};
      owners := owners - {ino};
      assert View() == FreedInode(fs2, ino);
      FreedInodeInv(fs2, o1, ino);
      ErasedOthers(fs0, o0, fs1, o1, fs2, View(), ino);
    }
  }

  /** A transfer that fails before its first byte has cost nothing. */
  lemma CostFirst(off: nat, n: nat, p: nat, err: Errno)
    requires off % 512 != 0
    ensures err != EOK && p == off ==> Cost(off, p, err) < Blocks(off, off + n)
  {
  }

  /** The cost of a transfer that went on from a block boundary p. */
  lemma CostJoin(off: nat, p: nat, q: nat, end: nat, err: Errno)
    requires off <= p <= q && p <= end && p % 512 == 0
    ensures Cost(off, p, EOK) + Cost(p, q, err) == Cost(off, q, err)
    ensures Cost(off, p, EOK) + Blocks(p, end) == Blocks(off, end)
  {
  }

  /** From fs to fs' at most n blocks were allocated and none was freed. */
  ghost predicate Allocs(fs: FS, fs': FS, n: nat) {
    |fs'.disk| == |fs.disk| && fs.used <= fs'.used && |FreeOf(fs)| <= |FreeOf(fs')| + n
  }

  /** From fs to fs' no block was allocated. */
  ghost predicate Frees(fs: FS, fs': FS) {
    |fs'.disk| == |fs.disk| && fs'.used <= fs.used
  }

  lemma AllocsNone(fs: FS, fs': FS)
    requires |fs'.disk| == |fs.disk| && fs'.used == fs.used
    ensures Allocs(fs, fs', 0)
  {
    assert FreeOf(fs') == FreeOf(fs);
  }

  lemma AllocsTwice(fs: FS, fs1: FS, fs2: FS, m: nat, n: nat)
    requires Allocs(fs, fs1, m) && Allocs(fs1, fs2, n)
    ensures Allocs(fs, fs2, m + n)
  {
  }

  /** One more free block for each file that may need an indirect block. */
  lemma RoomAllocs(fs: FS, fs': FS, i: nat, n: nat)
    requires |fs'.disk| == |fs.disk| && fs.used <= fs'.used && Room(fs, i) <= Room(fs', i) + n
    ensures Allocs(fs, fs', n + 1)
  {
  }

  lemma {:induction false} SubsetSize(s: set<nat>, t: set<nat>)
    requires s <= t
    ensures |s| <= |t|
  {
    if s != {} {
      var x :| x in s;
      SubsetSize(s - {x}, t - {x});
    }
  }

  /** Fewer used blocks are more free ones. */
  lemma MoreFree(fs: FS, fs': FS)
    requires Frees(fs, fs')
    ensures |FreeOf(fs)| <= |FreeOf(fs')|
  {
    SubsetSize(FreeOf(fs), FreeOf(fs'));
  }

  lemma FreeNone(fs: FS)
    ensures Full(fs) <==> |FreeOf(fs)| == 0
  {
    if |FreeOf(fs)| == 0 {
      forall b | 0 <= b < |fs.disk|
        ensures b in fs.used
      {
        assert b !in FreeOf(fs);
      }
    } else {
      assert Full(fs) ==> FreeOf(fs) == {};
    }
  }

  /** The owners decide which blocks are used. */
  lemma SameUsed(fs: FS, fs': FS, o: Owners)
    requires Inv(fs, o) && Inv(fs', o) && |fs'.disk| == |fs.disk|
    ensures fs'.used == fs.used
  {
    hide Ref, Clean;
  }

  /** A block that was taken is one free block less. */
  lemma OneLess(fs: FS, fs': FS, b: nat)
    requires |fs'.disk| == |fs.disk| && b < |fs.disk| && b !in fs.used && fs'.used == fs.used + {b}
    ensures |FreeOf(fs)| == |FreeOf(fs')| + 1
  {
    assert FreeOf(fs) == FreeOf(fs') + {b};
  }

  lemma SpentOne(fs: FS, fs': FS, i: nat, b: nat)
    requires |fs'.disk| == |fs.disk| && b < |fs.disk| && b !in fs.used && fs'.used == fs.used + {b}
    requires fs'.vn == fs.vn
    ensures Room(fs, i) == Room(fs', i) + 1
  {
    OneLess(fs, fs', b);
  }

  lemma SameRoom(fs: FS, fs': FS, i: nat)
    requires |fs'.disk| == |fs.disk| && fs'.used == fs.used && i in fs.vn && i in fs'.vn
    requires fs'.vn[i].inode.indirect == fs.vn[i].inode.indirect
    ensures Room(fs', i) == Room(fs, i)
  {
    assert FreeOf(fs') == FreeOf(fs);
  }

  lemma AllButOne(fs: FS, fs': FS, o: Owners, x: nat)
    requires SameFiles(fs, fs', o)
    ensures OthersSame(fs, fs', o, x)
  {
    hide Cur, FileBlock;
  }

  lemma SameTrans1(fs: FS, fs1: FS, fs2: FS, o: Owners)
    requires SameFiles(fs, fs1, o) && SameFiles(fs1, fs2, o)
    ensures SameFiles(fs, fs2, o)
  {
    hide Cur, FileBlock, IsInode;
  }

  /** Truncation to length 0 leaves an inode without blocks, whatever it had. */
  lemma TruncatedToNothing(fs: FS, o: Owners, i: nat)
    requires Inv(fs, o) && i in fs.vn && fs.vn[i].inode.indirect < |fs.disk|
    ensures var fs' := Truncated(fs, i, 0);
            && fs'.vn == fs.vn[i := fs'.vn[i]] && fs'.vn[i].refs == fs.vn[i].refs && i in fs'.vn
            && NoBlocks(fs'.vn[i].inode) && fs'.vn[i].inode.linkcount == fs.vn[i].inode.linkcount
            && OthersSame(fs, fs', o, i) && fs'.used <= fs.used
  {
    hide Ref, Owned, Clean, Cur, FileBlock, FreedBlocks, ToWords, FromWords, DecodeInode;
    var x := fs.vn[i].inode;
    assert BlockLen(0) == 0;
    assert x.indirect != 0 ==> CutWords(ToWords(fs.disk[x.indirect]), 0) == ZeroWords;
    TruncatedVnodes(fs, o, i, 0);
    forall j, fb | IsInode(o, j) && j != i
      ensures FileBlock(Truncated(fs, i, 0), j, fb) == FileBlock(fs, j, fb)
    {
      TruncatedBlock(fs, o, i, 0, j, fb);
    }
  }

  /** Truncation of a file without blocks frees none. */
  lemma NothingFreed(fs: FS, i: nat)
    requires i in fs.vn && NoBlocks(fs.vn[i].inode) && fs.vn[i].inode.indirect < |fs.disk|
    ensures Truncated(fs, i, 0).used == fs.used
  {
    hide CutDirect, CutDisk;
    assert CutBlocks(fs.vn[i].inode.direct, 0, 0) == {};
  }

  lemma ErasedOthers(fs0: FS, o0: Owners, fs1: FS, o1: Owners, fs2: FS, fs3: FS, x: nat)
    requires SameInodes(o0, o1)
    requires OthersSame(fs0, fs1, o0, x) && SameFiles(fs1, fs2, o1) && OthersSame(fs2, fs3, o1, x)
    ensures OthersSame(fs0, fs3, o0, x)
  {
    hide Cur, FileBlock, IsInode;
    forall i | IsInode(o0, i) && i != x
      ensures SameMeta(Cur(fs0, i), Cur(fs3, i)) && SameBlocks(fs0, fs3, i)
    {
      assert IsInode(o1, i);
    }
  }

  lemma DataOwned(fs: FS, o: Owners, i: nat, fb: nat, d: nat)
    requires Inv(fs, o) && i in fs.vn && fb < MAXBLOCKS && d == Ref(fs, DataSlot(i, fb)) && d != 0
    ensures d in o
  {
    hide Ref, Clean, Owned;
    RefOwned(fs, o, DataSlot(i, fb));
  }

  lemma InodeOwned(o: Owners, i: nat)
    requires IsInode(o, i)
    ensures i in o
  {
  }

  lemma DirtySaved(disk: seq<Block>, v: seq<bv8>)
    ensures MapSaved(disk, v, true)
  {
  }

  lemma IndirectOwned(fs: FS, o: Owners, i: nat)
    requires Inv(fs, o) && i in fs.vn && fs.vn[i].inode.indirect != 0
    ensures fs.vn[i].inode.indirect in o
  {
    hide DecodeInode, ToWords, Owned, Clean;
    RefOwned(fs, o, IndirectOf(i));
  }

  lemma CleanVnode(fs: FS, o: Owners, i: nat)
    requires Inv(fs, o) && i in fs.vn && !fs.vn[i].dirty
    ensures DecodeInode(BlockAt(fs, i)) == fs.vn[i].inode
  {
    hide Owned, Ref, DecodeInode;
  }

  lemma NoCuts(d: seq<u32>, base: nat, bl: nat)
    ensures CutBlocks(d[..0], base, bl) == {}
  {
  }

  function SizeRaised(fs: FS, i: nat, end: u32): FS
    requires i in fs.vn
  {
    var x := fs.vn[i].inode;
    if end > x.size then WithInode(fs, i, x.(size := end)) else fs
  }

  lemma SameBlockRaised(fs: FS, i: nat, pos: nat)
    requires i in fs.vn && pos < 0x8000_0000
    ensures FileBlock(SizeRaised(fs, i, pos), i, pos / 512) == FileBlock(fs, i, pos / 512)
  {
  }

  lemma FinishWrite(fs0: FS, o0: Owners, fs: FS, o: Owners, i: nat, off: nat, d: seq<byte>)
    requires IoStep(fs0, o0, fs, o, i, off, d) && Inv(fs, o) && IsInode(o0, i) && i in fs0.vn && off + |d| < 0x8000_0000
    ensures i in fs.vn && |fs.disk| == |fs0.disk| && SameInodes(o0, o)
    ensures var fs' := SizeRaised(fs, i, off + |d|);
            Inv(fs', o) && Written(fs0, fs', o0, i, off, d) && SameTable(fs0, fs') && OnlyVnode(fs0, fs', i)
            && fs0.used <= fs'.used
  {
    hide Ref, Clean, Owned, FileByte, DecodeInode;
    var x := fs.vn[i].inode.(size := off + |d|);
    if off + |d| > fs.vn[i].inode.size {
      SetFields(fs, o, i, x);
      SameBytesAfter(fs, WithInode(fs, i, x), o);
    }
  }

  lemma SameBytesAfter(fs: FS, fs': FS, o: Owners)
    requires forall j :: IsInode(o, j) ==> SameBlocks(fs, fs', j)
    ensures forall j, p: nat :: IsInode(o, j) ==> FileByte(fs', j, p) == FileByte(fs, j, p)
  {
    hide FileBlock;
  }

  lemma AlignUp(off: nat)
    ensures (off + (512 - off % 512)) % 512 == 0
  {
  }

  lemma MovedTable(fs: FS, o: Owners, fs': FS, o': Owners, rw: Direction, i: nat, off: nat,
                   mem: seq<byte>, mem': seq<byte>, base: nat, k: nat)
    requires base + k <= |mem| && Moved(fs, o, fs', o', rw, i, off, mem, mem', base, k)
    ensures fs'.vn.Keys == fs.vn.Keys && |mem'| == |mem|
  {
    hide Splice, Stored, SameMetas, SameInodes;
  }

  lemma SpliceAll(s: seq<byte>, d: seq<byte>)
    requires |s| == |d|
    ensures Splice(s, 0, d) == d
  {
  }

  lemma MappedBlock(fs: FS, i: nat, fb: nat)
    ensures var b := Ref(fs, DataSlot(i, fb)); FileBlock(fs, i, fb) == if b == 0 then ZeroBlock else BlockAt(fs, b)
  {
  }

  /** Writing back a block of a file into which e was copied. */
  lemma WriteStep(fs: FS, o: Owners, i: nat, fb: nat, b: nat, skip: nat, e: seq<byte>)
    requires Inv(fs, o) && i in fs.vn && fb < MAXBLOCKS && skip + |e| <= 512
    requires b != 0 && b == Ref(fs, DataSlot(i, fb)) && b < |fs.disk|
    ensures var fs' := WriteBlock(fs, b, Splice(FileBlock(fs, i, fb), skip, e));
            Inv(fs', o) && IoStep(fs, o, fs', o, i, 512 * fb + skip, e)
  {
    hide Ref, Cur, Clean, Owned, FileBlock, Splice, Stored;
    var blk := Splice(FileBlock(fs, i, fb), skip, e);
    WriteData(fs, o, i, fb, b, blk);
    BlockStored(fs, WriteBlock(fs, b, blk), o, i, fb, skip, e);
  }

  lemma StepTwice(fs: FS, o: Owners, fs1: FS, o1: Owners, fs2: FS, o2: Owners, i: nat, off: nat,
                  d: seq<byte>, e: seq<byte>)
    requires IoStep(fs, o, fs1, o1, i, off, d) && IoStep(fs1, o1, fs2, o2, i, off + |d|, e)
    ensures IoStep(fs, o, fs2, o2, i, off, d + e)
  {
    hide Stored, SameMetas, IsInode;
    StoredTwice(fs, fs1, fs2, o, o1, i, off, d, e);
  }

  /** The outcome of one I/O step that stored bytes e at off in file i. */
  ghost predicate IoStep(fs: FS, o: Owners, fs': FS, o': Owners, i: nat, off: nat, e: seq<byte>) {
    && SameInodes(o, o') && SameTable(fs, fs') && OnlyVnode(fs, fs', i)
    && |fs'.disk| == |fs.disk| && fs.used <= fs'.used
    && Stored(fs, fs', o, i, off, e) && SameMetas(fs, fs', o)
  }

  lemma QuietStep(fs: FS, o: Owners, fs': FS, o': Owners, i: nat, off: nat)
    requires SameFiles(fs, fs', o) && SameInodes(o, o') && SameTable(fs, fs') && OnlyVnode(fs, fs', i)
    requires |fs'.disk| == |fs.disk| && fs.used <= fs'.used
    ensures IoStep(fs, o, fs', o', i, off, [])
  {
    hide SameFiles, SameInodes, SameTable, Stored, SameMetas;
    SameFilesStored(fs, fs', o, i, off);
  }

  /** The outcome of moving k bytes between file i, from off on, and memory, from base on. */
  ghost predicate Moved(fs: FS, o: Owners, fs': FS, o': Owners, rw: Direction, i: nat, off: nat,
                        mem: seq<byte>, mem': seq<byte>, base: nat, k: nat)
    requires base + k <= |mem|
  {
    && (rw == UioWrite ==> mem' == mem && IoStep(fs, o, fs', o', i, off, mem[base..base + k]))
    && (rw == UioRead ==> fs' == fs && o' == o && mem' == Splice(mem, base, Bytes(fs, i, off, k)))
  }

  lemma QuietMove(fs: FS, o: Owners, fs': FS, o': Owners, rw: Direction, i: nat, off: nat, mem: seq<byte>, base: nat)
    requires SameFiles(fs, fs', o) && SameInodes(o, o') && SameTable(fs, fs') && OnlyVnode(fs, fs', i)
    requires |fs'.disk| == |fs.disk| && fs.used <= fs'.used && base <= |mem|
    requires rw == UioRead ==> fs' == fs && o' == o
    ensures Moved(fs, o, fs', o', rw, i, off, mem, mem, base, 0)
  {
    hide IoStep, Splice;
    QuietStep(fs, o, fs', o', i, off);
    SpliceNone(mem, base);
    assert mem[base..base] == [] && Bytes(fs, i, off, 0) == [];
  }

  lemma MovedTwice(fs: FS, o: Owners, fs1: FS, o1: Owners, fs2: FS, o2: Owners, rw: Direction, i: nat, off: nat,
                   mem: seq<byte>, mem1: seq<byte>, mem2: seq<byte>, base: nat, k: nat, m: nat)
    requires base + k + m <= |mem| == |mem1|
    requires Moved(fs, o, fs1, o1, rw, i, off, mem, mem1, base, k)
    requires Moved(fs1, o1, fs2, o2, rw, i, off + k, mem1, mem2, base + k, m)
    ensures Moved(fs, o, fs2, o2, rw, i, off, mem, mem2, base, k + m)
  {
    hide IoStep, Splice;
    if rw == UioWrite {
      StepTwice(fs, o, fs1, o1, fs2, o2, i, off, mem[base..base + k], mem[base + k..base + k + m]);
      assert mem[base..base + k] + mem[base + k..base + k + m] == mem[base..base + k + m];
    } else {
      SpliceTwice(mem, base, Bytes(fs, i, off, k), Bytes(fs, i, off + k, m));
      BytesTwice(fs, i, off, k, m);
    }
  }

  lemma WriteMove(fs: FS, o: Owners, i: nat, fb: nat, b: nat, skip: nat, mem: seq<byte>, base: nat, k: nat)
    requires Inv(fs, o) && i in fs.vn && fb < MAXBLOCKS && skip + k <= 512 && base + k <= |mem|
    requires b != 0 && b == Ref(fs, DataSlot(i, fb)) && b < |fs.disk|
    ensures var fs' := WriteBlock(fs, b, Splice(FileBlock(fs, i, fb), skip, mem[base..base + k]));
            Inv(fs', o) && Moved(fs, o, fs', o, UioWrite, i, 512 * fb + skip, mem, mem, base, k)
  {
    hide IoStep, Splice, Inv, Ref, FileBlock;
    WriteStep(fs, o, i, fb, b, skip, mem[base..base + k]);
  }

  lemma ReadMove(fs: FS, o: Owners, i: nat, fb: nat, skip: nat, mem: seq<byte>, base: nat, k: nat)
    requires skip + k <= 512 && base + k <= |mem|
    ensures Moved(fs, o, fs, o, UioRead, i, 512 * fb + skip, mem,
                  Splice(mem, base, FileBlock(fs, i, fb)[skip..skip + k]), base, k)
  {
    hide Splice;
    BlockBytes(fs, i, fb, skip, k);
  }

  lemma SameTableKeys(fs: FS, i: nat)
    requires i in fs.vn
    ensures forall fs': FS :: SameTable(fs, fs') ==> i in fs'.vn
  {
  }

  lemma DiskNonEmpty(fs: FS, o: Owners)
    requires Inv(fs, o)
    ensures 1 < |fs.disk|
  {
    hide Ref, Clean;
  }

  /** One allocation step, with everything its callers need to know about it. */
  lemma GrowStep(fs: FS, o: Owners, t: Slot, b: u32)
    requires CanGrow(fs, o, t, b)
    ensures Inv(Grow(fs, t, b), o[b := t]) && SameInodes(o, o[b := t])
    ensures SameFiles(fs, Grow(fs, t, b), o) && SameTable(fs, Grow(fs, t, b))
    ensures Ref(Grow(fs, t, b), t) == b && b != 0 && |Grow(fs, t, b).disk| == |fs.disk|
    ensures fs.used <= Grow(fs, t, b).used
  {
    hide Ref, Clean, Owned, Grow, FileBlock, Cur, DecodeInode, ToWords, FromWords;
    GrowFacts(fs, o, t, b);
    GrowInv(fs, o, t, b);
    GrowSameFiles(fs, o, t, b);
    GrowClean(fs, o, t, b);
    GrowRefs(fs, o, t, b, t);
  }

  /** Truncation keeps the invariant and the vnode table. */
  lemma TruncatedOk(fs: FS, o: Owners, i: nat, len: u32)
    requires Inv(fs, o) && i in fs.vn
    ensures fs.vn[i].inode.indirect < |fs.disk|
    ensures var fs', o' := Truncated(fs, i, len), CutOwners(fs, o, i, BlockLen(len));
            Inv(fs', o') && SameInodes(o, o') && SameTable(fs, fs') && |fs'.disk| == |fs.disk|
  {
    hide Inv, Truncated, Cur, Clean, CutOwners, SameInodes;
    IndirectInRange(fs, o, i);
    TruncatedInv(fs, o, i, len);
    TruncatedVnodes(fs, o, i, len);
  }

  lemma LoadedVnode(fs: FS, o: Owners, i: nat)
    requires Inv(fs, o) && i in fs.vn
    ensures IsInode(o, i) && fs.vn[i].refs > 0 && Cur(fs, i) == fs.vn[i].inode && i < |fs.disk| && i in fs.used
  {
    hide Ref, Clean, Owned;
    OwnedAt(fs, o, i);
  }

  lemma GrewNone(fs: FS, o: Owners, i: nat, off: nat, end: nat)
    ensures Grew(fs, fs, o, i, off, end)
  {
  }

  /** One slot was filled. */
  lemma GrewOne(fs: FS, o: Owners, t: Slot, b: u32, off: nat, end: nat)
    requires CanGrow(fs, o, t, b) && Touched(t.ino, off, end, t)
    ensures Grew(fs, Grow(fs, t, b), o, t.ino, off, end)
  {
    hide Ref, Clean, Owned, Grow, Inv;
    forall s | SlotOk(o, s) && Ref(Grow(fs, t, b), s) != Ref(fs, s)
      ensures Ref(fs, s) == 0 && Touched(t.ino, off, end, s)
    {
      GrowRefs(fs, o, t, b, s);
    }
  }

  /** What two steps filled, when the second one touches nothing outside off up to end. */
  lemma GrewTwice(fs: FS, o: Owners, fs1: FS, o1: Owners, fs2: FS, i: nat, off: nat, end: nat, p: nat, q: nat)
    requires Grew(fs, fs1, o, i, off, end) && Grew(fs1, fs2, o1, i, p, q) && SameInodes(o, o1) && off <= p
    requires q <= end || (q == p + 1 && p <= end && (p < end || p % 512 != 0))
    ensures Grew(fs, fs2, o, i, off, end)
  {
    hide Ref, IsInode;
    forall s | SlotOk(o, s) && Ref(fs2, s) != Ref(fs, s)
      ensures Ref(fs, s) == 0 && Touched(i, off, end, s)
    {
      assert SlotOk(o1, s) by { assert IsInode(o, s.ino) <==> IsInode(o1, s.ino); }
      if Ref(fs2, s) != Ref(fs1, s) && Ref(fs1, s) == Ref(fs, s) {
        assert Touched(i, p, q, s);
        TouchedMore(i, off, end, p, q, s);
      }
    }
  }

  lemma TouchedMore(i: nat, off: nat, end: nat, p: nat, q: nat, s: Slot)
    requires Touched(i, p, q, s) && off <= p
    requires q <= end || (q == p + 1 && p <= end && (p < end || p % 512 != 0))
    ensures Touched(i, off, end, s)
  {
  }

  /** The byte at p touches its block. */
  lemma GrewByte(fs: FS, fs': FS, o: Owners, i: nat, p: nat)
    requires Grew(fs, fs', o, i, 512 * (p / 512), 512 * (p / 512) + 1)
    ensures Grew(fs, fs', o, i, p, p + 1)
  {
    hide Ref;
    forall s | SlotOk(o, s) && Ref(fs', s) != Ref(fs, s)
      ensures Ref(fs, s) == 0 && Touched(i, p, p + 1, s)
    {
      assert Touched(i, 512 * (p / 512), 512 * (p / 512) + 1, s);
    }
  }

  /** So does an empty range inside it. */
  lemma GrewWider(fs: FS, fs': FS, o: Owners, i: nat, off: nat, end: nat)
    requires Grew(fs, fs', o, i, off, off + 1) && off % 512 != 0 && off <= end
    ensures Grew(fs, fs', o, i, off, end)
  {
    hide Ref;
    forall s | SlotOk(o, s) && Ref(fs', s) != Ref(fs, s)
      ensures Ref(fs, s) == 0 && Touched(i, off, end, s)
    {
      TouchedMore(i, off, end, off, off + 1, s);
    }
  }

  /** Writing a data block fills no slot. */
  lemma GrewData(fs: FS, o: Owners, fs1: FS, o1: Owners, i: nat, fb: nat, d: nat, blk: Block)
    requires Grew(fs, fs1, o, i, 512 * fb, 512 * fb + 1) && SameInodes(o, o1) && Inv(fs1, o1) && i in fs1.vn
    requires fb < MAXBLOCKS && d == Ref(fs1, DataSlot(i, fb)) && d != 0 && d < |fs1.disk|
    ensures Grew(fs, WriteBlock(fs1, d, blk), o, i, 512 * fb, 512 * fb + 1)
  {
    hide Ref, IsInode, Clean, Owned;
    RefOwned(fs1, o1, DataSlot(i, fb));
    forall s | SlotOk(o, s)
      ensures Ref(WriteBlock(fs1, d, blk), s) == Ref(fs1, s)
    {
      assert SlotOk(o1, s) by { assert IsInode(o, s.ino) <==> IsInode(o1, s.ino); }
      WriteDataRef(fs1, o1, d, blk, s);
    }
  }

  lemma GrewSame(fs: FS, fs1: FS, fs2: FS, o: Owners, i: nat, off: nat, end: nat)
    requires Grew(fs, fs1, o, i, off, end) && forall s :: Ref(fs2, s) == Ref(fs1, s)
    ensures Grew(fs, fs2, o, i, off, end)
  {
    hide Ref;
  }

  lemma SameRefRaised(fs: FS, i: nat, end: u32, s: Slot)
    requires i in fs.vn
    ensures Ref(SizeRaised(fs, i, end), s) == Ref(fs, s)
  {
  }

  lemma MovedInodes(fs: FS, o: Owners, fs': FS, o': Owners, rw: Direction, i: nat, off: nat,
                    mem: seq<byte>, mem': seq<byte>, base: nat, k: nat)
    requires base + k <= |mem| && Moved(fs, o, fs', o', rw, i, off, mem, mem', base, k)
    ensures SameInodes(o, o')
  {
    hide SameTable, OnlyVnode, Stored, SameMetas;
  }

  /** The effect of giving an indirect slot a block, in terms of the disk before. */
  lemma GrowIndSlotDisk(fs: FS, o: Owners, t: Slot, b: u32)
    requires CanGrow(fs, o, t, b) && t.IndSlot?
    ensures var ib := fs.vn[t.ino].inode.indirect;
            && ib != b
            && Grow(fs, t, b).disk == fs.disk[b := ZeroBlock][ib := FromWords(ToWords(fs.disk[ib])[t.k := b])]
            && Grow(fs, t, b).used == fs.used + {b}
            && Grow(fs, t, b).vn == fs.vn
  {
    hide Ref, Clean, Owned, ToWords, FromWords, DecodeInode;
    GrowFacts(fs, o, t, b);
  }

  lemma SameTrans(fs: FS, fs1: FS, fs2: FS, o: Owners, o1: Owners, o2: Owners)
    requires SameFiles(fs, fs1, o) && SameInodes(o, o1) && SameTable(fs, fs1)
    requires SameFiles(fs1, fs2, o1) && SameInodes(o1, o2) && SameTable(fs1, fs2)
    ensures SameFiles(fs, fs2, o) && SameInodes(o, o2) && SameTable(fs, fs2)
  {
    hide IsInode, Cur, FileBlock;
    forall i | IsInode(o, i)
      ensures SameMeta(Cur(fs, i), Cur(fs2, i)) && SameBlocks(fs, fs2, i)
    {
      assert IsInode(o1, i);
    }
  }

  lemma AllUsed(n: nat)
    ensures n <= BitmapSize(n)
  {
  }

  lemma InRange(fs: FS, o: Owners, b: nat)
    requires Inv(fs, o) && b < BitmapSize(|fs.disk|) && b !in fs.used
    ensures b < |fs.disk|
  {
    hide Ref;
    assert b >= |fs.disk| ==> IsReserved(|fs.disk|, b);
  }

  lemma NoChange(fs: FS, o: Owners)
    ensures SameFiles(fs, fs, o) && SameInodes(o, o) && SameTable(fs, fs)
    ensures forall i :: OnlyVnode(fs, fs, i)
  {
  }

  lemma NoRoomFull(fs: FS, i: nat, p: nat)
    requires NoRoom(fs, i, p)
    ensures p < MAXFILE && Full(fs)
  {
  }
}
