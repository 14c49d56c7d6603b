/** kern/lib/queue.c: the ring buffer behind the run queue, refining a sequence. */
module Queue {

  /** What happens to a run queue while threads come and go. */
  datatype Event<T> = Append(x: T) | Pop

  /** The picks a scheduler makes from a queue over a list of events. */
  function Picks<T>(q: seq<T>, evs: seq<Event<T>>): seq<T>
    decreases evs
  {
    if evs == [] then []
    else match evs[0]
      case Append(x) => Picks(q + [x], evs[1..])
      case Pop => if q == [] then Picks(q, evs[1..]) else [q[0]] + Picks(q[1..], evs[1..])
  }

  /** First in, first out: the element at position k is what pick k delivers, whatever is
      appended meanwhile. */
  lemma {:induction false} PickedInOrder<T>(q: seq<T>, evs: seq<Event<T>>, k: nat)
    requires k < |q| && k < |Picks(q, evs)|
    ensures Picks(q, evs)[k] == q[k]
    decreases evs
  {
    if evs[0].Append? {
      PickedInOrder(q + [evs[0].x], evs[1..], k);
    } else if k > 0 {
      PickedInOrder(q[1..], evs[1..], k - 1);
    }
  }

  /** The elements in a ring of slots, from nextread up to nextwrite. */
  function Ring<T>(d: seq<T>, nextread: nat, nextwrite: nat): seq<T>
    requires nextread < |d| && nextwrite < |d|
  {
    if nextread <= nextwrite then d[nextread..nextwrite] else d[nextread..] + d[..nextwrite]
  }

  function Succ(i: nat, size: nat): (r: nat)
    requires i < size
    ensures r == if i + 1 == size then 0 else i + 1
  {
    (i + 1) % size
  }

  lemma RingAppend<T>(d: seq<T>, r: nat, w: nat, x: T)
    requires r < |d| && w < |d| && Succ(w, |d|) != r
    ensures Ring(d[w := x], r, Succ(w, |d|)) == Ring(d, r, w) + [x]
  {
    hide Succ;
    var d' := d[w := x];
    if w + 1 == |d| {
      assert d'[r..] == d[r..w] + [x] && d'[..0] == [];
    } else if r <= w {
      assert d'[r..w + 1] == d[r..w] + [x];
    } else {
      assert d'[r..] == d[r..] && d'[..w + 1] == d[..w] + [x];
    }
  }

  lemma RingPop<T>(d: seq<T>, r: nat, w: nat)
    requires r < |d| && w < |d| && r != w
    ensures Ring(d, r, w) != [] && Ring(d, r, w)[0] == d[r] && Ring(d, Succ(r, |d|), w) == Ring(d, r, w)[1..]
  {
    hide Succ;
    if r < w {
      assert d[r..w][1..] == d[r + 1..w];
    } else if r + 1 == |d| {
      assert d[r..] == [d[r]] && ([d[r]] + d[..w])[1..] == d[..w] == d[0..w];
    } else {
      assert (d[r..] + d[..w])[1..] == d[r + 1..] + d[..w];
    }
  }

  lemma RingLen<T>(d: seq<T>, r: nat, w: nat)
    requires r < |d| && w < |d|
    ensures |Ring(d, r, w)| < |d|
    ensures Succ(w, |d|) == r <==> |Ring(d, r, w)| == |d| - 1
    ensures r == w <==> Ring(d, r, w) == []
  {
  }

  class Queue<T(0)> {
    var size: nat
    var nextwrite: nat
    var nextread: nat
    var data: array<T>

    ghost predicate Valid()
      reads this
    {
      data.Length == size > 0 && nextread < size && nextwrite < size
    }

    ghost function Contents(): seq<T>
      requires Valid()
      reads this, data
    {
      Ring(data[..], nextread, nextwrite)
    }

    /** One slot always stays empty. */
    ghost predicate HasRoom()
      requires Valid()
      reads this, data
    {
      |Contents()| < size - 1
    }

    /** q_create */
    constructor (size: nat, filler: T)
      requires size > 0
      ensures Valid() && Contents() == [] && this.size == size && fresh(data)
    {
      this.size := size;
      data := new T[size](_ => filler);
      nextread, nextwrite := 0, 0;
    }

    /** q_empty */
    method Empty() returns (r: bool)
      requires Valid()
      ensures r == (Contents() == [])
    {
      RingLen(data[..], nextread, nextwrite);
      r := nextwrite == nextread;
    }

    /** The doubling loop of q_grow. */
    static method Doubled(size: nat, targetsize: nat) returns (nsize: nat)
      requires size > 0
      ensures nsize >= targetsize && nsize >= size && (nsize == size || nsize < 2 * targetsize)
    {
      nsize := size;
      while nsize < targetsize
        invariant nsize >= size && (nsize == size || nsize < 2 * targetsize)
        decreases targetsize - nsize
      {
        nsize := nsize * 2;
      }
    }

    /** q_grow. The appends it makes into the new ring never grow it again. */
    method Grow(targetsize: nat, memok: bool, filler: T) returns (ok: bool)
      requires Valid() && targetsize > size
      modifies this
      ensures Valid() && ok == memok
      ensures Contents() == old(Contents())
      ensures ok ==> size >= targetsize && fresh(data)
      ensures !ok ==> size == old(size) && data == old(data)
      decreases 1
    {
      hide Ring;
      var olddata, onr, onw, osize := data, nextread, nextwrite, size;
      var nsize := Doubled(size, targetsize);
      if !memok {
        return false;
      }
      var ndata := new T[nsize](_ => filler);
      size := nsize;
      data := ndata;
      nextread, nextwrite := 0, 0;
      ghost var all := Ring(olddata[..], onr, onw);
      RingLen(olddata[..], onr, onw);
      var i: nat := onr;
      ghost var n: nat := 0;
      RingLen(data[..], 0, 0);
      assert all[..0] == [] && all[0..] == all;
      while i != onw
        invariant Valid() && size == nsize && data == ndata && olddata[..] == old(data[..])
        invariant i < osize && n <= |all|
        invariant Ring(olddata[..], i, onw) == all[n..] && Contents() == all[..n]
        decreases |all| - n
      {
        RingPop(olddata[..], i, onw);
        RingLen(olddata[..], i, onw);
        var r := AddTail(olddata[i], memok, filler);
        assert all[..n] + [all[n]] == all[..n + 1];
        i := (i + 1) % osize;
        n := n + 1;
      }
      RingLen(olddata[..], i, onw);
      assert all[..|all|] == all;
      return true;
    }

    /** q_addtail: appends, growing the ring when it is full. It fails only when it has to grow
        and there is no memory. */
    method AddTail(x: T, memok: bool, filler: T) returns (ok: bool)
      requires Valid()
      modifies this, data
      ensures Valid() && (data == old(data) || fresh(data))
      ensures ok == (memok || old(HasRoom()))
      ensures Contents() == if ok then old(Contents()) + [x] else old(Contents())
      ensures old(HasRoom()) ==> size == old(size) && data == old(data) && nextread == old(nextread)
      decreases if HasRoom() then 0 else 2
    {
      RingLen(data[..], nextread, nextwrite);
      var nextnext := (nextwrite + 1) % size;
      if nextnext == nextread {
        ok := Grow(size + 1, memok, filler);
        if !ok {
          return;
        }
        RingLen(data[..], nextread, nextwrite);
        nextnext := (nextwrite + 1) % size;
      }
      RingAppend(data[..], nextread, nextwrite, x);
      ghost var was := data[..];
      data[nextwrite] := x;
      assert data[..] == was[nextwrite := x];
      nextwrite := nextnext;
      return true;
    }

    /** q_preallocate */
    method Preallocate(n: nat, memok: bool, filler: T) returns (ok: bool)
      requires Valid()
      modifies this
      ensures Valid() && (data == old(data) || fresh(data)) && Contents() == old(Contents())
      ensures ok == (memok || n <= old(size)) && (ok ==> size >= n)
    {
      ok := true;
      if n > size {
        ok := Grow(n, memok, filler);
      }
    }

    /** q_remhead */
    method RemHead() returns (x: T)
      requires Valid() && Contents() != []
      modifies this`nextread
      ensures Valid() && x == old(Contents())[0] && Contents() == old(Contents())[1..]
    {
      RingLen(data[..], nextread, nextwrite);
      RingPop(data[..], nextread, nextwrite);
      x := data[nextread];
      nextread := (nextread + 1) % size;
    }
  }
}
