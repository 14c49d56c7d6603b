/** On-disk encodings of SFS: big-endian 32-bit words inside 512-byte blocks and
    the inode record that fills one block (kern/include/kern/sfs.h). */
module Codec {

  type byte = x: int | 0 <= x < 256
  type u16 = x: int | 0 <= x < 0x1_0000
  type u32 = x: int | 0 <= x < 0x1_0000_0000

  const NDIRECT := 15
  const DBPERIDB := 128

  function Zeros(n: nat): (z: seq<byte>)
    ensures |z| == n && forall i :: 0 <= i < n ==> z[i] == 0
  {
    seq(n, _ => 0)
  }

  type Block = b: seq<byte> | |b| == 512 witness Zeros(512)
  type Words = w: seq<u32> | |w| == 128 witness Zeros(128)

  const ZeroBlock: Block := Zeros(512)
  const ZeroWords: Words := Zeros(128)

  /** Byte K (0 is the most significant) of a 32-bit word. */
  function ByteOf(w: u32, k: nat): byte
    requires k < 4
  {
    if k == 0 then w / 16777216
    else if k == 1 then w / 65536 % 256
    else if k == 2 then w / 256 % 256
    else w % 256
  }

  function WordOf(a: byte, b: byte, c: byte, d: byte): u32 {
    16777216 * a + 65536 * b + 256 * c + d
  }

  /** A block read as an array of 128 words. */
  function ToWords(b: Block): Words {
    seq(128, i requires 0 <= i < 128 => WordOf(b[4 * i], b[4 * i + 1], b[4 * i + 2], b[4 * i + 3]))
  }

  /** An array of 128 words written out as a block. */
  function FromWords(w: Words): Block {
    seq(512, p requires 0 <= p < 512 => ByteOf(w[p / 4], p % 4))
  }

  lemma WordRoundTrip(w: u32)
    ensures WordOf(ByteOf(w, 0), ByteOf(w, 1), ByteOf(w, 2), ByteOf(w, 3)) == w
  {
    assert w / 65536 == w / 16777216 * 256 + w / 65536 % 256;
    assert w / 256 == w / 65536 * 256 + w / 256 % 256;
  }

  lemma BytesAt(w: Words, i: nat)
    requires i < 128
    ensures forall k :: 0 <= k < 4 ==> FromWords(w)[4 * i..4 * i + 4][k] == ByteOf(w[i], k)
  {
    forall k | 0 <= k < 4
      ensures FromWords(w)[4 * i..4 * i + 4][k] == ByteOf(w[i], k)
    {
      assert (4 * i + k) / 4 == i && (4 * i + k) % 4 == k;
    }
  }

  lemma WordsRoundTrip(w: Words)
    ensures ToWords(FromWords(w)) == w
  {
    forall i | 0 <= i < 128
      ensures ToWords(FromWords(w))[i] == w[i]
    {
      BytesAt(w, i);
      var b := FromWords(w);
      assert b[4 * i..4 * i + 4] == [b[4 * i], b[4 * i + 1], b[4 * i + 2], b[4 * i + 3]];
      WordRoundTrip(w[i]);
    }
  }

  /** The number that bytes spell, the most significant one first. */
  function BigEndian(s: seq<byte>): nat {
    if s == [] then 0 else 256 * BigEndian(s[..|s| - 1]) + s[|s| - 1]
  }

  lemma BigEndian4(s: seq<byte>)
    requires |s| == 4
    ensures BigEndian(s) == WordOf(s[0], s[1], s[2], s[3])
  {
    BigEndian2(s[..2]);
    assert s[..3][..2] == s[..2];
    assert BigEndian(s[..3]) == 256 * BigEndian(s[..2]) + s[2];
  }

  lemma BigEndian2(s: seq<byte>)
    requires |s| == 2
    ensures var a: int, b: int := s[0], s[1]; BigEndian(s) == 256 * a + b
  {
    assert s[..1][..0] == [];
    assert BigEndian(s[..1]) == s[0];
  }

  /** Word i of a block is the big-endian number at byte 4 * i, read or written. */
  lemma WordLayout(b: Block, w: Words, i: nat)
    requires i < 128
    ensures ToWords(b)[i] == BigEndian(b[4 * i..4 * i + 4])
    ensures BigEndian(FromWords(w)[4 * i..4 * i + 4]) == w[i]
  {
    BigEndian4(b[4 * i..4 * i + 4]);
    var s := FromWords(w)[4 * i..4 * i + 4];
    BigEndian4(s);
    BytesAt(w, i);
    WordRoundTrip(w[i]);
  }

  lemma ZeroBlockWords()
    ensures ToWords(ZeroBlock) == ZeroWords
  {
  }

  /** struct sfs_inode: one block. */
  datatype InodeRecord = InodeRecord(
    size: u32, itype: u16, linkcount: u16, direct: seq<u32>, indirect: u32, waste: seq<u32>)

  type Inode = i: InodeRecord | |i.direct| == 15 && |i.waste| == 110
    witness InodeRecord(0, 0, 0, Zeros(15), 0, Zeros(110))

  const ZeroInode: Inode := InodeRecord(0, 0, 0, Zeros(15), 0, Zeros(110))

  function InodeWords(i: Inode): Words {
    [i.size, 65536 * i.itype + i.linkcount] + i.direct + [i.indirect] + i.waste
  }

  function WordsInode(w: Words): Inode {
    InodeRecord(w[0], w[1] / 65536, w[1] % 65536, w[2..17], w[17], w[18..])
  }

  function EncodeInode(i: Inode): Block { FromWords(InodeWords(i)) }

  function DecodeInode(b: Block): Inode { WordsInode(ToWords(b)) }

  lemma InodeWordsRoundTrip(i: Inode)
    ensures WordsInode(InodeWords(i)) == i
  {
    var w := InodeWords(i);
    assert w[2..17] == i.direct;
    assert w[18..] == i.waste;
    assert w[1] == 65536 * i.itype + i.linkcount;
  }

  /** Writing an inode to its block and reading it back gives the same inode. */
  lemma InodeRoundTrip(i: Inode)
    ensures DecodeInode(EncodeInode(i)) == i
  {
    InodeWordsRoundTrip(i);
    WordsRoundTrip(InodeWords(i));
  }

  /** The fields of an inode in its block: size, type, link count, direct blocks, indirect block. */
  lemma InodeLayout(i: Inode)
    ensures var b := EncodeInode(i);
            && BigEndian(b[0..4]) == i.size && BigEndian(b[4..6]) == i.itype && BigEndian(b[6..8]) == i.linkcount
            && (forall k :: 0 <= k < 15 ==> BigEndian(b[8 + 4 * k..12 + 4 * k]) == i.direct[k])
            && BigEndian(b[68..72]) == i.indirect
  {
    hide FromWords, ToWords, ByteOf, WordOf, BigEndian;
    var b, w := EncodeInode(i), InodeWords(i);
    WordLayout(b, w, 0);
    WordLayout(b, w, 17);
    forall k | 0 <= k < 15
      ensures BigEndian(b[8 + 4 * k..12 + 4 * k]) == i.direct[k]
    {
      WordLayout(b, w, 2 + k);
      assert w[2 + k] == i.direct[k];
      assert b[4 * (2 + k)..4 * (2 + k) + 4] == b[8 + 4 * k..12 + 4 * k];
    }
    BytesAt(w, 1);
    assert b[4..8] == b[4 * 1..4 * 1 + 4];
    Halves(b, w[1]);
    HighLow(i.itype, i.linkcount);
  }

  lemma HighLow(t: u16, n: u16)
    ensures (65536 * t + n) / 65536 == t && (65536 * t + n) % 65536 == n
  {
  }

  lemma HalfWords(w: u32)
    ensures w / 16777216 * 256 + w / 65536 % 256 == w / 65536 && w / 256 % 256 * 256 + w % 256 == w % 65536
  {
  }

  lemma Halves(b: Block, w: u32)
    requires forall k :: 0 <= k < 4 ==> b[4..8][k] == ByteOf(w, k)
    ensures BigEndian(b[4..6]) == w / 65536 && BigEndian(b[6..8]) == w % 65536
  {
    assert b[4] == b[4..8][0] && b[5] == b[4..8][1] && b[6] == b[4..8][2] && b[7] == b[4..8][3];
    BigEndian2(b[4..6]);
    BigEndian2(b[6..8]);
    HalfWords(w);
  }

  lemma ZeroWordsInode()
    ensures WordsInode(ZeroWords) == ZeroInode
  {
    assert ZeroWords[2..17] == Zeros(15);
    assert ZeroWords[18..] == Zeros(110);
  }

  /** A freshly cleared block reads as an inode of type SFS_TYPE_INVAL with no blocks. */
  lemma ZeroBlockInode()
    ensures DecodeInode(ZeroBlock) == ZeroInode
  {
    ZeroBlockWords();
    ZeroWordsInode();
  }
}
