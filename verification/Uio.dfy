/** kern/userprog/uio.c for kernel-space transfers: a cursor over a memory region. */
module Uio {
  import opened Codec

  datatype Direction = UioRead | UioWrite

  function Min(a: int, b: int): int { if a < b then a else b }

  /** s with the bytes from position at replaced by d. */
  function Splice(s: seq<byte>, at: nat, d: seq<byte>): (r: seq<byte>)
    requires at + |d| <= |s|
    ensures |r| == |s|
  {
    s[..at] + d + s[at + |d|..]
  }

  lemma SpliceAt(s: seq<byte>, at: nat, d: seq<byte>, i: nat)
    requires at + |d| <= |s| && i < |s|
    ensures Splice(s, at, d)[i] == if at <= i < at + |d| then d[i - at] else s[i]
  {
  }

  lemma SpliceNone(s: seq<byte>, at: nat)
    requires at <= |s|
    ensures Splice(s, at, []) == s
  {
  }

  /** Two adjacent transfers make one. */
  lemma SpliceTwice(s: seq<byte>, at: nat, d: seq<byte>, e: seq<byte>)
    requires at + |d| + |e| <= |s|
    ensures Splice(Splice(s, at, d), at + |d|, e) == Splice(s, at, d + e)
  {
  }

  /** memmove between two buffers */
  method Memmove(dst: array<byte>, di: nat, src: array<byte>, si: nat, n: nat)
    requires dst != src && di + n <= dst.Length && si + n <= src.Length
    modifies dst
    ensures dst[..] == Splice(old(dst[..]), di, src[si..si + n])
  {
    forall i | 0 <= i < n {
      dst[di + i] := src[si + i];
    }
  }

  /** k bytes were copied between memory m at base and buffer q at position at, which became m'
      and q'; no other byte changed on either side. */
  predicate Transferred(rw: Direction, m: seq<byte>, m': seq<byte>, q: seq<byte>, q': seq<byte>,
                        base: nat, at: nat, k: nat)
  {
    && base + k <= |m| && at + k <= |q|
    && (rw == UioRead ==> q' == q && m' == Splice(m, base, q[at..at + k]))
    && (rw == UioWrite ==> m' == m && q' == Splice(q, at, m[base..base + k]))
  }

  lemma TransferNone(rw: Direction, m: seq<byte>, q: seq<byte>, base: nat, at: nat)
    requires base <= |m| && at <= |q|
    ensures Transferred(rw, m, m, q, q, base, at, 0)
  {
    SpliceNone(m, base);
    SpliceNone(q, at);
    assert q[at..at] == [] && m[base..base] == [];
  }

  lemma TransferOne(rw: Direction, m: seq<byte>, m': seq<byte>, q: seq<byte>, q': seq<byte>, base: nat, at: nat, k: nat)
    requires base + k <= |m| && at + k <= |q|
    requires rw == UioRead ==> q' == q && m' == Splice(m, base, q[at..at + k])
    requires rw == UioWrite ==> m' == m && q' == Splice(q, at, m[base..base + k])
    ensures Transferred(rw, m, m', q, q', base, at, k)
  {
  }

  class Uio {
    const rw: Direction
    const mem: array<byte>   // the memory the iovec points into
    var base: nat            // iov_kbase, as an index into mem
    var len: nat             // iov_len
    var offset: nat          // uio_offset
    var resid: nat           // uio_resid

    ghost predicate Valid()
      reads this
    {
      base + len <= mem.Length && resid <= len
    }

    /** mk_kuio */
    constructor (mem: array<byte>, base: nat, len: nat, pos: nat, rw: Direction)
      requires base + len <= mem.Length
      ensures Valid() && this.mem == mem && this.base == base && this.len == len && this.rw == rw
      ensures offset == pos && resid == len
    {
      this.mem, this.base, this.len, this.rw := mem, base, len, rw;
      offset, resid := pos, len;
    }

    /** All four cursor fields moved by n since the earlier values. */
    predicate Advanced(base0: nat, len0: nat, offset0: nat, resid0: nat, n: nat)
      reads this
    {
      base == base0 + n && len + n == len0 && offset == offset0 + n && resid + n == resid0
    }

    /** uiomove: transfers bytes between ptr[at..] and the region, in the direction of the uio,
        and advances the cursor by their number. That number is min(n, uio_resid) exactly when
        n is at most uio_resid, or uio_resid is 0 or the whole length of the region. */
    method Move(ptr: array<byte>, at: nat, n: nat)
      requires Valid() && ptr != mem && at + n <= ptr.Length
      requires resid == 0 || resid == len || n <= len   // otherwise a panic: size reached 0
      modifies this, ptr, mem
      ensures n <= old(resid) || old(resid) == old(len) ==>
                Valid() && Advanced(old(base), old(len), old(offset), old(resid), Min(n, old(resid)))
      ensures var k := Amount(n, old(len), old(resid));
              && base == old(base) + k && len + k == old(len) && offset == old(offset) + k
              && resid == Residue(old(resid), k)
              && (k == Min(n, old(resid)) <==> n <= old(resid) || old(resid) == 0 || old(resid) == old(len))
              && Transferred(rw, old(mem[..]), mem[..], old(ptr[..]), ptr[..], old(base), at, k)
    {
      hide Transferred, Wrapped, Splice;
      var p, left := at, n;
      ghost var m, q := mem[..], ptr[..];
      TransferNone(rw, m, q, base, at);
      while left > 0 && resid > 0
        invariant 0 <= left <= n && p - at == n - left
        // the first pass exhausts n or the region
        invariant p == at || (p - at == Amount(n, old(len), old(resid)) && (left == 0 || resid == 0))
        invariant base == old(base) + (p - at) && len + (p - at) == old(len) && offset == old(offset) + (p - at)
        invariant resid == Residue(old(resid), p - at)
        invariant p == at ==> mem[..] == m && ptr[..] == q
        invariant p == at ==> base == old(base) && len == old(len) && resid == old(resid)
        invariant Transferred(rw, m, mem[..], q, ptr[..], old(base), at, p - at)
      {
        assert p == at && left == n;
        var size := len;
        if size > left {
          size := left;
        }
        if size == 0 {
          assert false;   // panic: size reached 0
        }
        if rw == UioRead {
          Memmove(mem, base, ptr, p, size);
        } else {
          Memmove(ptr, p, mem, base, size);
        }
        TransferOne(rw, m, mem[..], q, ptr[..], base, at, size);
        base := base + size;
        len := len - size;
        resid := Residue(resid, size);
        offset := offset + size;
        p := p + size;
        left := left - size;
      }
    }

    /** uiomovezeros: sixteen zero bytes at a time. Zeros that do not fit are dropped. */
    method MoveZeros(n: nat)
      requires Valid() && rw == UioRead && (n <= resid || resid == len)
      modifies this, mem
      ensures Valid() && Advanced(old(base), old(len), old(offset), old(resid), Min(n, old(resid)))
      ensures mem[..] == Splice(old(mem[..]), old(base), Zeros(Min(n, old(resid))))
    {
      hide Splice, Zeros, Amount, Residue;
      ZerosJoin(0, 0);
      SpliceNone(mem[..], base);
      var zeros := new byte[16](_ => 0);
      ZerosAre(zeros[..]);
      var left := n;
      while left > 0
        invariant 0 <= left <= n && Valid() && (left <= resid || resid == len)
        invariant zeros[..] == Zeros(16) && fresh(zeros)
        invariant Advanced(old(base), old(len), old(offset), old(resid), Min(n - left, old(resid)))
        invariant mem[..] == Splice(old(mem[..]), old(base), Zeros(Min(n - left, old(resid))))
      {
        var amt := 16;
        if amt > left {
          amt := left;
        }
        ghost var done, more := Min(n - left, old(resid)), Min(amt, resid);
        SpliceTwice(old(mem[..]), old(base), Zeros(done), Zeros(more));
        ZerosJoin(done, more);
        ZerosFront(zeros[..], more);
        Move(zeros, 0, amt);
        left := left - amt;
      }
    }
  }

  lemma ZerosJoin(a: nat, b: nat)
    ensures Zeros(a) + Zeros(b) == Zeros(a + b) && Zeros(0) == [] && |Zeros(a)| == a
  {
  }

  lemma ZerosAre(z: seq<byte>)
    requires forall i :: 0 <= i < |z| ==> z[i] == 0
    ensures z == Zeros(|z|)
  {
  }

  lemma ZerosFront(z: seq<byte>, k: nat)
    requires z == Zeros(16) && k <= 16
    ensures |z| == 16 && z[0..k] == Zeros(k)
  {
  }

  /** A call that goes beyond uio_resid: with one byte left of a region of four, all four are moved
      and uio_resid wraps around. */
  lemma MovesBeyond()
    ensures Amount(4, 4, 1) == 4 && Residue(1, 4) == 0xffff_fffd
  {
  }

  /** How many bytes uiomove transfers. */
  function Amount(n: nat, len: nat, resid: nat): nat {
    if resid == 0 then 0 else Min(n, len)
  }

  /** uio_resid after size bytes, in unsigned 32-bit arithmetic. */
  function Residue(resid: nat, size: nat): nat {
    if size <= resid then resid - size else Wrapped(resid - size)
  }

  function Wrapped(x: int): nat { x % 0x1_0000_0000 }
}
