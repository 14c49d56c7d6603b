/** The filesystem as its users see it: names, files and open references, and what each
    operation may do to them. */
module SfsAbstract {
  import opened Codec
  import opened SfsModel
  import opened SfsTruncate
  import opened SfsBytes
  import opened SfsFiles
  import opened SfsEntries
  import opened SfsVolume
  import opened SfsDirectory
  import opened Uio

  // ---------------------------------------------------------------- one file

  /** A file: its length, and every byte stored for it. Bytes past the length are out of sight
      but come back when the file grows over them. */
  datatype File = File(size: nat, stored: seq<byte>)

  const EmptyFile := File(0, Zeros(MAXFILE))

  function Byte(f: File, p: nat): byte {
    if p < |f.stored| then f.stored[p] else 0
  }

  /** What a reader sees. */
  function Visible(f: File): (c: seq<byte>)
    ensures |c| == f.size
  {
    seq(f.size, p requires 0 <= p < f.size => Byte(f, p))
  }

  /** d stored at off. */
  function Put(f: File, off: nat, d: seq<byte>): (r: File)
    ensures |r.stored| == |f.stored|
  {
    File(if off + |d| > f.size then off + |d| else f.size,
         seq(|f.stored|, p requires 0 <= p < |f.stored| => if off <= p < off + |d| then d[p - off] else f.stored[p]))
  }

  /** The length set to len, and every byte dropped that does not stay. */
  function Trunc(f: File, len: nat): (r: File)
    ensures |r.stored| == |f.stored|
  {
    File(len, seq(|f.stored|, p requires 0 <= p < |f.stored| =>
      if Stays(len, p) then f.stored[p] else 0))
  }

  /** No byte between the end of the file and off is stored as anything but zero. */
  predicate Gapless(f: File, off: nat) {
    forall p :: f.size <= p < off ==> Byte(f, p) == 0
  }

  /** No byte past the end of the file is stored as anything but zero. */
  ghost predicate Tailless(f: File) {
    forall p: nat :: p >= f.size ==> Byte(f, p) == 0
  }

  /** A write acts as the overlay of a byte sequence exactly when it jumps over no stale byte. */
  lemma PutVisible(f: File, off: nat, d: seq<byte>)
    requires d == [] || off + |d| <= |f.stored|
    ensures Visible(Put(f, off, d)) == Overlay(Visible(f), off, d) <==> Gapless(f, off)
    ensures Tailless(f) ==> Gapless(f, off) && Tailless(Put(f, off, d))
  {
    var x, y := Visible(Put(f, off, d)), Overlay(Visible(f), off, d);
    assert |x| == |y|;
    if Gapless(f, off) {
      forall p: nat | p < |x|
        ensures x[p] == y[p]
      {
        assert x[p] == Byte(Put(f, off, d), p);
        assert f.size <= p < off ==> Byte(f, p) == 0;
      }
    } else {
      var p :| f.size <= p < off && Byte(f, p) != 0;
      assert x[p] != y[p];
    }
    if Tailless(f) {
      forall p: nat | p >= Put(f, off, d).size
        ensures Byte(Put(f, off, d), p) == 0
      {
        assert Byte(f, p) == 0;
      }
    }
  }

  /** Truncation acts as resizing a byte sequence exactly when it uncovers no stale byte. */
  lemma CutVisible(f: File, len: nat)
    ensures Visible(Trunc(f, len)) == Resize(Visible(f), len) <==> Gapless(f, len)
  {
    hide Stays;
    var x, y := Visible(Trunc(f, len)), Resize(Visible(f), len);
    forall p: nat | p < len
      ensures x[p] == Byte(f, p)
    {
      StaysBelow(len, p);
    }
    if !Gapless(f, len) {
      var p :| f.size <= p < len && Byte(f, p) != 0;
      assert x[p] != y[p];
    }
  }

  lemma StaysBelow(len: nat, p: nat)
    requires p < len
    ensures Stays(len, p)
  {
  }

  /** A file without stale bytes is left without any exactly when no nonzero byte that is cut
      off lies in a kept block. */
  lemma CutTail(f: File, len: nat)
    requires Tailless(f)
    ensures Tailless(Trunc(f, len)) <==> forall p :: !Stale(Visible(f), len, p)
  {
    hide Stays;
    if p :| Stale(Visible(f), len, p) {
      assert Byte(Trunc(f, len), p) != 0;
    } else {
      forall p: nat | p >= len
        ensures Byte(Trunc(f, len), p) == 0
      {
        assert p >= f.size ==> Byte(f, p) == 0;
        assert !Stale(Visible(f), len, p);
      }
    }
  }

  /** Truncation to nothing, and extension, leave no stale byte. */
  lemma SafeCut(f: File, len: nat)
    requires Tailless(f) && (len == 0 || len >= f.size)
    ensures Visible(Trunc(f, len)) == Resize(Visible(f), len) && Tailless(Trunc(f, len))
  {
    CutVisible(f, len);
    CutTail(f, len);
    assert len == 0 ==> forall p :: !Stale(Visible(f), len, p);
  }

  /** A file without stale bytes that is cut to l1 and then extended to l2 shows the two resizes
      of its content exactly when the first cut leaves no nonzero byte stored below l2. */
  lemma CutThenExtend(f: File, l1: nat, l2: nat)
    requires Tailless(f)
    ensures Visible(Trunc(Trunc(f, l1), l2)) == Resize(Resize(Visible(f), l1), l2)
            <==> forall p: nat :: p < l2 ==> !Stale(Visible(f), l1, p)
  {
    hide Stays, Visible, Resize;
    CutVisible(f, l1);
    CutVisible(Trunc(f, l1), l2);
    VisibleAt(f);
    if p: nat :| p < l2 && Stale(Visible(f), l1, p) {
      assert Byte(Trunc(f, l1), p) != 0;
    } else {
      forall p: nat | l1 <= p < l2
        ensures Byte(Trunc(f, l1), p) == 0
      {
        assert p >= f.size ==> Byte(f, p) == 0;
        assert !Stale(Visible(f), l1, p);
      }
    }
  }

  lemma VisibleAt(f: File)
    ensures forall p :: 0 <= p < f.size ==> Visible(f)[p] == Byte(f, p)
  {
  }

  // ---------------------------------------------------------------- all files

  /** The directory, the files by inode number, how often each file is open, and the number of
      free blocks. */
  datatype AbsFS = AbsFS(names: map<Name, u32>, files: map<nat, File>, open: map<nat, nat>, free: nat)

  datatype Op =
    | Creat(name: Name, excl: bool)
    | Open(name: Name)
    | Close(ino: u32)
    | AddLink(name: Name, ino: u32)
    | Unlinked(name: Name)
    | Renamed(n1: Name, n2: Name)
    | Wrote(ino: u32, off: nat, data: seq<byte>)
    | Resized(ino: u32, len: u32)
    | Fsync(ino: u32)
    | SyncAll
    | ReadAt(ino: u32, off: nat, n: nat)

  /** Offsets and lengths that a signed 32-bit off_t can hold. */
  predicate Legal(op: Op) {
    match op
    case Wrote(_, off, d) => off + |d| < 0x8000_0000
    case Resized(_, len) => len + 511 < 0x8000_0000
    case ReadAt(_, off, n) => off + n < 0x8000_0000
    case _ => true
  }

  predicate Unchanged(a: AbsFS, a': AbsFS) {
    a'.names == a.names && a'.files == a.files && a'.open == a.open
  }

  predicate Named(names: map<Name, u32>, i: nat) {
    exists n :: n in names && names[n] == i
  }

  /** One more reference to i. */
  function Taken(open: map<nat, nat>, i: nat): map<nat, nat> {
    open[i := (if i in open then open[i] else 0) + 1]
  }

  /** One reference to i fewer. */
  function Dropped(open: map<nat, nat>, i: nat): map<nat, nat>
    requires i in open
  {
    if open[i] > 1 then open[i := open[i] - 1] else open - {i}
  }

  /** File i is gone once it is neither open nor named. */
  function Swept(names: map<Name, u32>, files: map<nat, File>, open: map<nat, nat>, i: nat): map<nat, File> {
    if i in open || Named(names, i) then files else files - {i}
  }

  /** Exactly the files that are open or named exist. */
  ghost predicate Sound(a: AbsFS) {
    forall i :: i in a.files <==> i in a.open || Named(a.names, i)
  }

  /** The free blocks an operation may need: a new file takes an inode and room for its name; a
      name takes a block of the directory and perhaps the indirect block; so does every block
      that a write touches, with one indirect block for all of them. */
  function Need(op: Op): nat {
    match op
    case Creat(_, _) => 3
    case AddLink(_, _) => 2
    case Renamed(_, _) => 2
    case Wrote(_, off, d) => NonNegative(off, off + |d|); Blocks(off, off + |d|) + 1
    case _ => 0
  }

  lemma NonNegative(lo: nat, hi: nat)
    requires lo <= hi
    ensures Blocks(lo, hi) >= 0
  {
  }

  /** Free blocks before and after an operation. Operations that store something take no more
      than they need, those that drop something take none, and the others change nothing. Only
      an operation with less than it needs may run out of space. */
  predicate Budget(a: AbsFS, op: Op, err: Errno, a': AbsFS) {
    && (err == ENOSPC ==> a.free < Need(op))
    && match op
       case Creat(_, _) => a'.free <= a.free <= a'.free + Need(op)
       case AddLink(_, _) => a'.free <= a.free <= a'.free + Need(op)
       case Renamed(_, _) => a'.free <= a.free <= a'.free + Need(op)
       case Wrote(_, _, _) => a'.free <= a.free <= a'.free + Need(op)
       case Close(_) => a.free <= a'.free
       case Unlinked(_) => a.free <= a'.free
       case Resized(_, _) => a.free <= a'.free
       case _ => a'.free == a.free
  }

  /** Result err of entering the new name n, and the free blocks left. */
  predicate Entered(names: map<Name, u32>, n: Name, err: Errno, free: nat) {
    && (err == EEXIST <==> n in names)
    && (err == ENAMETOOLONG <==> n !in names && |n| >= NAMELEN)
    && (err == EINVAL <==> n !in names && |n| < NAMELEN && |names| == DIRSLOTS)
    && (err == ENOSPC ==> free == 0)
    && (err == EOK || err == EEXIST || err == ENAMETOOLONG || err == EINVAL || err == ENOSPC)
  }

  /** A file is created empty under a number no file has, and opened; or the existing file is
      opened. Creation needs a block for the inode and perhaps one for the directory. */
  predicate Created(a: AbsFS, n: Name, excl: bool, err: Errno, a': AbsFS) {
    && (err == EEXIST <==> n in a.names && excl)
    && (err == EOK || err == EEXIST || err == ENAMETOOLONG || err == EINVAL || err == ENOSPC)
    && (err == ENAMETOOLONG ==> n !in a.names && |n| >= NAMELEN)
    && (err == EINVAL ==> n !in a.names && |n| < NAMELEN && |a.names| == DIRSLOTS)
    && (err == ENOSPC ==> n !in a.names && a'.free <= 1)
    && (n !in a.names && (|n| >= NAMELEN || |a.names| == DIRSLOTS) ==> err != EOK)
    && (err != EOK ==> Unchanged(a, a'))
    && (err == EOK && n in a.names ==>
          a'.names == a.names && a'.files == a.files && a'.open == Taken(a.open, a.names[n]))
    && (err == EOK && n !in a.names ==>
          && n in a'.names
          && var i := a'.names[n];
             && i !in a.files && a'.names == a.names[n := i]
             && a'.files == a.files[i as nat := EmptyFile] && a'.open == a.open[i as nat := 1])
  }

  /** A write at off stored the first k bytes of d, which made the file f. It stops early only
      at the largest file size, or at a block that is not stored when no block is free. */
  predicate Stopped(f: File, off: nat, d: seq<byte>, k: nat, err: Errno, free: nat) {
    && k <= |d| && (k > 0 ==> off + k <= MAXFILE)
    && (err == EOK ==> k == |d|)
    && (err != EOK ==> StoppedAt(off, |d|, off + k))
    && (err == EINVAL ==> off + k >= MAXFILE)
    && (err == ENOSPC ==> free == 0 && off + k < MAXFILE && Hole(f, (off + k) / 512))
    && (err == EOK || err == EINVAL || err == ENOSPC)
  }

  predicate Hole(f: File, fb: nat) {
    forall p :: 512 * fb <= p < 512 * fb + 512 ==> Byte(f, p) == 0
  }

  ghost predicate Overwritten(a: AbsFS, i: nat, off: nat, d: seq<byte>, err: Errno, a': AbsFS) {
    && i in a.files && a'.names == a.names && a'.open == a.open
    && exists k :: 0 <= k <= |d| && a'.files == a.files[i := Put(a.files[i], off, d[..k])]
                   && Stopped(a'.files[i], off, d, k, err, a'.free)
  }

  /** At most n bytes of c from off on. */
  function Window(c: seq<byte>, off: nat, n: nat): seq<byte> {
    if off >= |c| then [] else c[off..Min(off + n, |c|)]
  }

  /** A read returns the bytes asked for that exist. It fails exactly when they go on past the
      largest file size, with the bytes up to there delivered; a read of nothing fails only
      there. */
  predicate Delivered(c: seq<byte>, off: nat, n: nat, err: Errno, out: seq<byte>) {
    && |out| <= n && out == Window(c, off, |out|)
    && (err == EOK ==> out == Window(c, off, n))
    && (err == EINVAL ==> off < |c| && (n > 0 ==> Min(off + n, |c|) > MAXFILE))
    && (err == EINVAL ==> |out| == if off < MAXFILE then MAXFILE - off else 0)
    && (n > 0 && off < |c| && Min(off + n, |c|) > MAXFILE ==> err == EINVAL)
    && (err == EOK || err == EINVAL)
  }

  /** What each operation does, given the result it returned. A failing operation changes no
      name, file or reference, except that a write may have stored a prefix of its data, and
      raises the size to where it stopped even if it stored nothing. EBADF stands for an
      operation on a file that is not open, and is returned exactly then. */
  ghost predicate Effect(a: AbsFS, op: Op, err: Errno, out: seq<byte>, a': AbsFS) {
    match op
    case Creat(n, excl) => Created(a, n, excl, err, a')
    case Open(n) =>
      if n !in a.names then err == ENOENT && a' == a
      else err == EOK && a'.names == a.names && a'.files == a.files && a'.open == Taken(a.open, a.names[n])
    case Close(i) =>
      if i !in a.open then err == EBADF && a' == a
      else err == EOK && a'.names == a.names && a'.open == Dropped(a.open, i)
           && a'.files == Swept(a.names, a.files, a'.open, i)
    case AddLink(n, i) =>
      if i !in a.open then err == EBADF && a' == a
      else && Entered(a.names, n, err, a'.free)
           && (if err == EOK then a'.names == a.names[n := i] && a'.files == a.files && a'.open == a.open
               else Unchanged(a, a'))
    case Unlinked(n) =>
      if n !in a.names then err == ENOENT && a' == a
      else err == EOK && a'.names == a.names - {n} && a'.open == a.open
           && a'.files == Swept(a'.names, a.files, a.open, a.names[n])
    case Renamed(n1, n2) =>
      if n1 !in a.names then err == ENOENT && a' == a
      else && Entered(a.names, n2, err, a'.free)
           && (if err == EOK
               then a'.names == (a.names - {n1})[n2 := a.names[n1]] && a'.files == a.files && a'.open == a.open
               else Unchanged(a, a'))
    case Wrote(i, off, d) =>
      if i !in a.open then err == EBADF && a' == a else Overwritten(a, i, off, d, err, a')
    case Resized(i, len) =>
      if i !in a.open then err == EBADF && a' == a
      else err == EOK && i in a.files && a'.names == a.names && a'.open == a.open
           && a'.files == a.files[i as nat := Trunc(a.files[i], len)]
    case Fsync(i) => a' == a && err == if i in a.open || i == ROOT then EOK else EBADF
    case SyncAll => a' == a && err == EOK
    case ReadAt(i, off, n) =>
      && a' == a
      && (if i !in a.open then err == EBADF else i in a.files && Delivered(Visible(a.files[i]), off, n, err, out))
  }

  ghost predicate AbsStep(a: AbsFS, op: Op, err: Errno, out: seq<byte>, a': AbsFS) {
    Effect(a, op, err, out, a') && Budget(a, op, err, a')
  }

  /** A run of the abstract filesystem. */
  ghost predicate AbsRun(trace: seq<AbsFS>, ops: seq<Op>, errs: seq<Errno>, outs: seq<seq<byte>>) {
    && |trace| == |ops| + 1 && |errs| == |outs| == |ops|
    && forall k :: 0 <= k < |ops| ==> AbsStep(trace[k], ops[k], errs[k], outs[k], trace[k + 1])
  }

  // ---------------------------------------------------------------- runs on byte sequences

  ghost predicate AllTailless(a: AbsFS) {
    forall i :: i in a.files ==> Tailless(a.files[i])
  }

  /** Truncation, if any, is to length 0 or extends the file. */
  predicate SafeOp(a: AbsFS, op: Op) {
    op.Resized? && op.ino in a.files ==> op.len == 0 || op.len >= a.files[op.ino].size
  }

  /** Read as plain byte sequences, the files changed as a write or truncate of such sequences
      changes them, and no file but the one operated on changed. */
  ghost predicate PlainEffect(a: AbsFS, op: Op, err: Errno, a': AbsFS) {
    && (forall i :: i in a.files && i in a'.files && !(op.Wrote? && i == op.ino) && !(op.Resized? && i == op.ino) ==>
          Visible(a'.files[i]) == Visible(a.files[i]))
    && (forall i :: i in a'.files && i !in a.files ==> Visible(a'.files[i]) == [])
    && (op.Wrote? && err != EBADF ==>
          && op.ino in a.files && op.ino in a'.files
          && exists k :: 0 <= k <= |op.data| && (err == EOK ==> k == |op.data|) &&
                         Visible(a'.files[op.ino]) == Overlay(Visible(a.files[op.ino]), op.off, op.data[..k]))
    && (op.Resized? && err == EOK ==>
          && op.ino in a.files && op.ino in a'.files
          && Visible(a'.files[op.ino]) == Resize(Visible(a.files[op.ino]), op.len))
  }

  /** Every file holds room for the largest file. */
  ghost predicate Sized(a: AbsFS) {
    forall i :: i in a.files ==> |a.files[i].stored| == MAXFILE
  }

  lemma PlainWrite(a: AbsFS, op: Op, err: Errno, out: seq<byte>, a': AbsFS)
    requires op.Wrote? && AbsStep(a, op, err, out, a') && Sized(a) && AllTailless(a)
    ensures Sized(a') && AllTailless(a') && PlainEffect(a, op, err, a')
  {
    hide Tailless, Put, Visible, Overlay, Hole;
    if op.ino in a.open {
      var k :| 0 <= k <= |op.data| && a'.files == a.files[op.ino as nat := Put(a.files[op.ino], op.off, op.data[..k])]
               && Stopped(a'.files[op.ino], op.off, op.data, k, err, a'.free);
      PutVisible(a.files[op.ino], op.off, op.data[..k]);
    }
  }

  lemma PlainResize(a: AbsFS, op: Op, err: Errno, out: seq<byte>, a': AbsFS)
    requires op.Resized? && AbsStep(a, op, err, out, a') && Sized(a) && AllTailless(a) && SafeOp(a, op)
    ensures Sized(a') && AllTailless(a') && PlainEffect(a, op, err, a')
  {
    hide Tailless, Trunc, Visible, Resize;
    if op.ino in a.open {
      SafeCut(a.files[op.ino], op.len);
    }
  }

  /** Operations on names, and reads, change the bytes of no file. */
  lemma OtherSteps(a: AbsFS, op: Op, err: Errno, out: seq<byte>, a': AbsFS)
    requires AbsStep(a, op, err, out, a') && !op.Wrote? && !op.Resized?
    ensures forall i :: i in a'.files ==> a'.files[i] == if i in a.files then a.files[i] else EmptyFile
  {
    hide Named, Entered, Delivered, Taken;
  }

  /** A step whose truncation is safe keeps every file free of stale bytes and acts as on plain
      byte sequences. */
  lemma PlainStep(a: AbsFS, op: Op, err: Errno, out: seq<byte>, a': AbsFS)
    requires AbsStep(a, op, err, out, a') && Sized(a) && AllTailless(a) && SafeOp(a, op)
    ensures Sized(a') && AllTailless(a') && PlainEffect(a, op, err, a')
  {
    hide AbsStep, Tailless, Visible, Resize, Overlay;
    if op.Wrote? {
      PlainWrite(a, op, err, out, a');
    } else if op.Resized? {
      PlainResize(a, op, err, out, a');
    } else {
      OtherSteps(a, op, err, out, a');
      EmptyFileShown();
    }
  }

  lemma EmptyFileShown()
    ensures Tailless(EmptyFile) && Visible(EmptyFile) == [] && |EmptyFile.stored| == MAXFILE
  {
  }

  /** Along every run whose truncations are to length 0 or extensions, the files act as plain
      byte sequences. */
  lemma {:induction false} PlainRun(trace: seq<AbsFS>, ops: seq<Op>, errs: seq<Errno>, outs: seq<seq<byte>>, k: nat)
    requires AbsRun(trace, ops, errs, outs) && Sized(trace[0]) && AllTailless(trace[0])
    requires forall j :: 0 <= j < |ops| ==> SafeOp(trace[j], ops[j])
    requires k <= |ops|
    ensures Sized(trace[k]) && AllTailless(trace[k])
    ensures forall j :: 0 <= j < k ==> PlainEffect(trace[j], ops[j], errs[j], trace[j + 1])
  {
    hide AbsStep, AllTailless, Sized, PlainEffect, SafeOp;
    if k > 0 {
      PlainRun(trace, ops, errs, outs, k - 1);
      PlainStep(trace[k - 1], ops[k - 1], errs[k - 1], outs[k - 1], trace[k]);
    }
  }

  // ---------------------------------------------------------------- a byte that comes back

  /** Creating a file, writing two bytes, cutting it to one and extending it to two again. */
  function StaleOps(n: Name, i: u32, x: byte, y: byte): seq<Op> {
    [Creat(n, true), Wrote(i, 0, [x, y]), Resized(i, 1), Resized(i, 2), ReadAt(i, 0, 2)]
  }

  /** Two bytes at the start of a file, after a cut to one byte and an extension to two. */
  lemma StillThere(f: File, x: byte, y: byte)
    requires |f.stored| == MAXFILE
    ensures Visible(Trunc(Trunc(Put(f, 0, [x, y]), 1), 2)) == [x, y]
  {
    var g := Trunc(Trunc(Put(f, 0, [x, y]), 1), 2);
    assert Byte(g, 0) == x && Byte(g, 1) == y;
  }

  /** In every run of them whose operations succeed, the last one reads the byte that was cut off
      instead of a zero. */
  lemma StaleRun(trace: seq<AbsFS>, errs: seq<Errno>, outs: seq<seq<byte>>, n: Name, i: u32, x: byte, y: byte)
    requires AbsRun(trace, StaleOps(n, i, x, y), errs, outs) && n !in trace[0].names
    requires forall k :: 0 <= k < 5 ==> errs[k] == EOK
    requires n in trace[1].names && trace[1].names[n] == i
    ensures outs[4] == [x, y]
  {
    hide Put, Trunc, Visible, Budget, Entered, Named;
    var ops := StaleOps(n, i, x, y);
    assert AbsStep(trace[0], ops[0], errs[0], outs[0], trace[0 + 1]);
    assert AbsStep(trace[1], ops[1], errs[1], outs[1], trace[1 + 1]);
    assert AbsStep(trace[2], ops[2], errs[2], outs[2], trace[2 + 1]);
    assert AbsStep(trace[3], ops[3], errs[3], outs[3], trace[3 + 1]);
    assert AbsStep(trace[4], ops[4], errs[4], outs[4], trace[4 + 1]);
    assert trace[1].files[i] == EmptyFile && trace[1].open[i] == 1;
    assert [x, y][..2] == [x, y];
    assert trace[2].files[i] == Put(EmptyFile, 0, [x, y]);
    StillThere(EmptyFile, x, y);
  }

  // ---------------------------------------------------------------- running out of space

  /** What all operations may need together. */
  function Needs(ops: seq<Op>): nat {
    if ops == [] then 0 else Needs(ops[..|ops| - 1]) + Need(ops[|ops| - 1])
  }

  lemma NeedsMore(ops: seq<Op>, k: nat)
    requires k < |ops|
    ensures Needs(ops[..k + 1]) == Needs(ops[..k]) + Need(ops[k])
  {
    assert ops[..k + 1][..k] == ops[..k];
  }

  lemma {:induction false} NeedsGrow(ops: seq<Op>, k: nat)
    requires k <= |ops|
    ensures Needs(ops[..k]) <= Needs(ops)
    decreases |ops| - k
  {
    if k == |ops| {
      assert ops[..k] == ops;
    } else {
      NeedsMore(ops, k);
      NeedsGrow(ops, k + 1);
    }
  }

  /** The free blocks of a run never fall further than its operations need. */
  lemma {:induction false} SpaceLeft(trace: seq<AbsFS>, ops: seq<Op>, errs: seq<Errno>, outs: seq<seq<byte>>, k: nat)
    requires AbsRun(trace, ops, errs, outs) && k <= |ops|
    ensures trace[0].free <= trace[k].free + Needs(ops[..k])
  {
    hide Need;
    if k > 0 {
      SpaceLeft(trace, ops, errs, outs, k - 1);
      NeedsMore(ops, k - 1);
      assert AbsStep(trace[k - 1], ops[k - 1], errs[k - 1], outs[k - 1], trace[k - 1 + 1]);
    }
  }

  /** A run that starts with as many free blocks as its operations may need never runs out of
      space. */
  lemma EnoughSpace(trace: seq<AbsFS>, ops: seq<Op>, errs: seq<Errno>, outs: seq<seq<byte>>)
    requires AbsRun(trace, ops, errs, outs) && Needs(ops) <= trace[0].free
    ensures forall k :: 0 <= k < |ops| ==> errs[k] != ENOSPC
  {
    hide Need, Needs;
    forall k | 0 <= k < |ops|
      ensures errs[k] != ENOSPC
    {
      SpaceLeft(trace, ops, errs, outs, k);
      NeedsMore(ops, k);
      NeedsGrow(ops, k + 1);
      assert AbsStep(trace[k], ops[k], errs[k], outs[k], trace[k + 1]);
    }
  }
}
