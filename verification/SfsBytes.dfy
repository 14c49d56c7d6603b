/** Files as byte sequences: what a write of some bytes at an offset means, and how it
    follows from what happens to single blocks. */
module SfsBytes {
  import opened Codec
  import opened SfsModel
  import opened SfsSteps
  import opened Uio

  const MAXFILE := 73216   // MAXBLOCKS * 512

  /** k stored bytes of file i from offset off on. */
  function Bytes(fs: FS, i: nat, off: nat, k: nat): (r: seq<byte>)
    ensures |r| == k
  {
    seq<byte>(k, q requires 0 <= q < k => FileByte(fs, i, off + q))
  }

  lemma BytesTwice(fs: FS, i: nat, off: nat, k: nat, m: nat)
    ensures Bytes(fs, i, off, k) + Bytes(fs, i, off + k, m) == Bytes(fs, i, off, k + m)
  {
    hide FileByte;
  }

  lemma BlockBytes(fs: FS, i: nat, fb: nat, skip: nat, k: nat)
    requires skip + k <= 512
    ensures FileBlock(fs, i, fb)[skip..skip + k] == Bytes(fs, i, 512 * fb + skip, k)
  {
    hide FileBlock;
    var x, y := FileBlock(fs, i, fb)[skip..skip + k], Bytes(fs, i, 512 * fb + skip, k);
    forall q | 0 <= q < k
      ensures x[q] == y[q]
    {
      var p := 512 * fb + skip + q;
      assert p / 512 == fb && p % 512 == skip + q;
      assert y[q] == FileByte(fs, i, p);
    }
  }

  /** Within the file, the stored bytes are the content. */
  lemma BytesContent(fs: FS, i: nat, off: nat, k: nat)
    requires off + k <= Cur(fs, i).size
    ensures Bytes(fs, i, off, k) == Content(fs, i)[off..off + k]
  {
    hide FileByte, Cur;
  }

  /** c overwritten by d at off, extended with zeros when off lies past the end. */
  function Overlay(c: seq<byte>, off: nat, d: seq<byte>): (r: seq<byte>)
  {
    var n := if off + |d| > |c| then off + |d| else |c|;
    seq(n, p requires 0 <= p < n => if off <= p < off + |d| then d[p - off] else if p < |c| then c[p] else 0)
  }

  /** Past the end of the file every stored byte is zero. */
  ghost predicate ZeroTail(fs: FS, i: nat) {
    forall p: nat :: p >= Cur(fs, i).size ==> FileByte(fs, i, p) == 0
  }

  ghost predicate SameMetas(fs: FS, fs': FS, o: Owners) {
    forall j :: IsInode(o, j) ==> SameMeta(Cur(fs, j), Cur(fs', j))
  }

  /** Bytes d were stored in file i from offset off on; no other byte of any file changed. */
  ghost predicate Stored(fs: FS, fs': FS, o: Owners, i: nat, off: nat, d: seq<byte>) {
    forall j, p: nat :: IsInode(o, j) ==>
      FileByte(fs', j, p) == if j == i && off <= p < off + |d| then d[p - off] else FileByte(fs, j, p)
  }

  lemma SameFilesStored(fs: FS, fs': FS, o: Owners, i: nat, off: nat)
    requires SameFiles(fs, fs', o)
    ensures Stored(fs, fs', o, i, off, []) && SameMetas(fs, fs', o)
  {
    hide FileBlock, Cur;
  }

  lemma StoredTwice(fs: FS, fs1: FS, fs2: FS, o: Owners, o1: Owners, i: nat, off: nat, d: seq<byte>, e: seq<byte>)
    requires SameInodes(o, o1)
    requires Stored(fs, fs1, o, i, off, d) && SameMetas(fs, fs1, o)
    requires Stored(fs1, fs2, o1, i, off + |d|, e) && SameMetas(fs1, fs2, o1)
    ensures Stored(fs, fs2, o, i, off, d + e) && SameMetas(fs, fs2, o)
  {
    hide FileByte, Cur, IsInode;
    forall j, p: nat | IsInode(o, j)
      ensures FileByte(fs2, j, p) == if j == i && off <= p < off + |d + e| then (d + e)[p - off] else FileByte(fs, j, p)
    {
      assert IsInode(o1, j);
    }
    forall j | IsInode(o, j)
      ensures SameMeta(Cur(fs, j), Cur(fs2, j))
    {
      assert IsInode(o1, j);
    }
  }

  /** Replacing part of one block of a file stores those bytes in the file. */
  lemma BlockStored(fs: FS, fs': FS, o: Owners, i: nat, fb: nat, skip: nat, d: seq<byte>)
    requires skip + |d| <= 512
    requires forall j, g :: IsInode(o, j) && (j != i || g != fb) ==> FileBlock(fs', j, g) == FileBlock(fs, j, g)
    requires FileBlock(fs', i, fb) == Splice(FileBlock(fs, i, fb), skip, d)
    ensures Stored(fs, fs', o, i, 512 * fb + skip, d)
  {
    hide FileBlock, Splice, IsInode;
    forall j, p: nat | IsInode(o, j)
      ensures FileByte(fs', j, p) ==
              if j == i && 512 * fb + skip <= p < 512 * fb + skip + |d| then d[p - (512 * fb + skip)]
              else FileByte(fs, j, p)
    {
      var g, q := p / 512, p % 512;
      assert p == 512 * g + q;
      if j == i && g == fb {
        SpliceAt(FileBlock(fs, i, fb), skip, d, q);
      }
    }
  }

  /** The outcome of a write of d at off: bytes stored, and the size raised to cover them. */
  ghost predicate Written(fs: FS, fs': FS, o: Owners, i: nat, off: nat, d: seq<byte>) {
    && Stored(fs, fs', o, i, off, d)
    && (forall j :: IsInode(o, j) && j != i ==> SameMeta(Cur(fs, j), Cur(fs', j)))
    && Cur(fs', i).itype == Cur(fs, i).itype && Cur(fs', i).linkcount == Cur(fs, i).linkcount
    && Cur(fs', i).size == if off + |d| > Cur(fs, i).size then off + |d| else Cur(fs, i).size
  }

  /** No byte between the end of the file and off is stored as anything but zero. */
  ghost predicate ZeroGap(fs: FS, i: nat, off: nat) {
    forall p: nat :: Cur(fs, i).size <= p < off ==> FileByte(fs, i, p) == 0
  }

  /** A write refines the overlay of a plain byte sequence exactly when the gap it jumps over
      holds no stale bytes. */
  lemma WrittenContent(fs: FS, fs': FS, o: Owners, i: nat, off: nat, d: seq<byte>)
    requires Written(fs, fs', o, i, off, d) && IsInode(o, i)
    ensures Content(fs', i) == Overlay(Content(fs, i), off, d) <==> ZeroGap(fs, i, off)
    ensures ZeroTail(fs, i) ==> ZeroGap(fs, i, off) && ZeroTail(fs', i)
  {
    hide FileByte, Cur;
    var c, c' := Overlay(Content(fs, i), off, d), Content(fs', i);
    assert |c'| == |c|;
    if !ZeroGap(fs, i, off) {
      var p: nat :| Cur(fs, i).size <= p < off && FileByte(fs, i, p) != 0;
      assert c'[p] != c[p];
    }
  }
}
