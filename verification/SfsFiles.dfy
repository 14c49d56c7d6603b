/** Truncation on file contents: when it behaves like truncation of a byte sequence. */
module SfsFiles {
  import opened Codec
  import opened SfsModel
  import opened SfsSteps
  import opened SfsTruncate
  import opened SfsBytes

  /** c cut to n bytes, or extended to n bytes with zeros. */
  function Resize(c: seq<byte>, n: nat): seq<byte> {
    seq(n, p requires 0 <= p < n => if p < |c| then c[p] else 0)
  }

  /** Byte p stays stored when its file is cut to len bytes: its block begins below len or, past
      the direct blocks, the block before it does. */
  predicate Stays(len: nat, p: nat) {
    if p < 7680 then p / 512 * 512 < len else (p / 512 - 1) * 512 < len
  }

  lemma StaysIff(len: nat, p: nat)
    ensures Stays(len, p) <==> Kept(BlockLen(len), p / 512)
  {
    KeptIff(len, p / 512);
  }

  lemma TruncatedByte(fs: FS, o: Owners, i: nat, len: u32, p: nat)
    requires Inv(fs, o) && i in fs.vn && fs.vn[i].inode.indirect < |fs.disk| && IsInode(o, i)
    ensures FileByte(Truncated(fs, i, len), i, p) == if Stays(len, p) then FileByte(fs, i, p) else 0
  {
    hide Truncated, FileBlock;
    TruncatedBlock(fs, o, i, len, i, p / 512);
    StaysIff(len, p);
  }

  /** A byte before the end that truncation to len leaves stored although it is cut off: the
      tail of a kept block, or the whole of indirect file block ceil(len/512). */
  predicate Stale(c: seq<byte>, len: nat, p: nat) {
    len <= p < |c| && Stays(len, p) && c[p] != 0
  }

  lemma TruncatedBytes(fs: FS, o: Owners, i: nat, len: u32)
    requires Inv(fs, o) && i in fs.vn && fs.vn[i].inode.indirect < |fs.disk| && IsInode(o, i)
    ensures forall p: nat ::
              FileByte(Truncated(fs, i, len), i, p) == if Stays(len, p) then FileByte(fs, i, p) else 0
    ensures forall p: nat :: p < len ==> Stays(len, p)
    ensures Cur(Truncated(fs, i, len), i).size == len
  {
    hide Truncated, FileByte, Cur, Inv;
    TruncatedVnodes(fs, o, i, len);
    forall p: nat
      ensures FileByte(Truncated(fs, i, len), i, p) == if Stays(len, p) then FileByte(fs, i, p) else 0
    {
      TruncatedByte(fs, o, i, len, p);
    }
  }

  /** The new content is the old one, cut or extended with zeros, exactly when no stale bytes
      lie between the old end and the new one. */
  lemma TruncatedContent(fs: FS, o: Owners, i: nat, len: u32)
    requires Inv(fs, o) && i in fs.vn && fs.vn[i].inode.indirect < |fs.disk| && IsInode(o, i)
    ensures Content(Truncated(fs, i, len), i) == Resize(Content(fs, i), len) <==> ZeroGap(fs, i, len)
  {
    hide Truncated, FileByte, Cur, Inv, Stays;
    TruncatedBytes(fs, o, i, len);
    var c, c' := Resize(Content(fs, i), len), Content(Truncated(fs, i, len), i);
    if !ZeroGap(fs, i, len) {
      var p: nat :| Cur(fs, i).size <= p < len && FileByte(fs, i, p) != 0;
      assert c'[p] != c[p];
    }
  }

  /** The zero tail survives exactly when no nonzero byte that is cut off stays in a kept block. */
  lemma TruncatedTail(fs: FS, o: Owners, i: nat, len: u32)
    requires Inv(fs, o) && i in fs.vn && fs.vn[i].inode.indirect < |fs.disk| && IsInode(o, i)
    requires ZeroTail(fs, i)
    ensures ZeroTail(Truncated(fs, i, len), i) <==> forall p :: !Stale(Content(fs, i), len, p)
  {
    hide Truncated, FileByte, Cur, Inv, Stays;
    TruncatedBytes(fs, o, i, len);
    if p :| Stale(Content(fs, i), len, p) {
      assert FileByte(Truncated(fs, i, len), i, p) != 0;
    } else {
      forall p: nat | p >= len
        ensures FileByte(Truncated(fs, i, len), i, p) == 0
      {
        assert !Stale(Content(fs, i), len, p);
      }
    }
  }

  /** A file of two or more bytes whose second byte is not zero, cut to one byte and extended
      to two again, shows its old second byte instead of a zero. */
  lemma StaleByteReturns(fs: FS, o: Owners, i: nat)
    requires Inv(fs, o) && i in fs.vn && fs.vn[i].inode.indirect < |fs.disk| && IsInode(o, i)
    requires Cur(fs, i).size >= 2 && Content(fs, i)[1] != 0
    ensures var fs1 := Truncated(fs, i, 1);
            && i in fs1.vn && fs1.vn[i].inode.indirect < |fs1.disk|
            && Content(Truncated(fs1, i, 2), i)[1] == Content(fs, i)[1] != Resize(Resize(Content(fs, i), 1), 2)[1]
  {
    hide Truncated, FileByte, Cur, CutOwners;
    var fs1, o1 := Truncated(fs, i, 1), CutOwners(fs, o, i, 1);
    assert BlockLen(1) == 1 && Stays(1, 1) && Stays(2, 1);
    TruncatedInv(fs, o, i, 1);
    TruncatedVnodes(fs, o, i, 1);
    IndirectInRange(fs1, o1, i);
    TruncatedVnodes(fs1, o1, i, 2);
    TruncatedByte(fs, o, i, 1, 1);
    TruncatedByte(fs1, o1, i, 2, 1);
  }
}
