/** lib/libc/random.c: the additive feedback generator with its front and rear pointers, refined
    to a window of the last deg words, and the switching of state arrays. */
module Random {
  const W32 := 0x1_0000_0000
  const MAX_TYPES := 5

  type Word = w: nat | w < 0x1_0000_0000

  function Deg(t: nat): nat
    requires t < MAX_TYPES
  {
    [0, 7, 15, 31, 63][t]
  }

  function Sep(t: nat): nat
    requires t < MAX_TYPES
  {
    [0, 3, 1, 3, 1][t]
  }

  lemma DegSep(t: nat)
    requires 0 < t < MAX_TYPES
    ensures 0 < Sep(t) < Deg(t) <= 63
  {
  }

  function Add(a: Word, b: Word): Word { (a + b) % W32 }

  /** The word the linear congruential step of srandom gives, and the one of TYPE_0. */
  function Lcg(a: Word): Word { (1103515245 * a + 12345) % W32 }
  function Lcg31(a: Word): Word { (a * 1103515245 + 12345) % 0x8000_0000 }

  lemma LcgIs(a: Word)
    ensures Lcg(a) == (1103515245 * a + 12345) % 0x1_0000_0000
  {
  }

  // ---------------------------------------------------------------- the generator as a window

  /** q holds the last deg words, oldest first; TYPE_0 keeps one word. */
  function Produced(t: nat, q: seq<Word>): Word
    requires t < MAX_TYPES && |q| == if t == 0 then 1 else Deg(t)
  {
    if t == 0 then Lcg31(q[0]) else DegSep(t); Add(q[0], q[Deg(t) - Sep(t)])
  }

  function Shift(t: nat, q: seq<Word>): (q': seq<Word>)
    requires t < MAX_TYPES && |q| == if t == 0 then 1 else Deg(t)
    ensures |q'| == |q|
  {
    q[1..] + [Produced(t, q)]
  }

  function ShiftN(t: nat, q: seq<Word>, n: nat): (q': seq<Word>)
    requires t < MAX_TYPES && |q| == if t == 0 then 1 else Deg(t)
    ensures |q'| == |q|
  {
    if n == 0 then q else Shift(t, ShiftN(t, q, n - 1))
  }

  /** What random returns for a word: TYPE_0 gives it whole, the others drop the low bit. */
  function Output(t: nat, w: Word): nat { if t == 0 then w else w / 2 }

  /** The whole history: the first window and every word produced after it. */
  function History(t: nat, q: seq<Word>, n: nat): (h: seq<Word>)
    requires t < MAX_TYPES && |q| == if t == 0 then 1 else Deg(t)
    ensures |h| == |q| + n
  {
    if n == 0 then q else History(t, q, n - 1) + [Produced(t, ShiftN(t, q, n - 1))]
  }

  lemma {:induction false} HistoryWindow(t: nat, q: seq<Word>, n: nat)
    requires t < MAX_TYPES && |q| == if t == 0 then 1 else Deg(t)
    ensures ShiftN(t, q, n) == History(t, q, n)[n..]
  {
    if n > 0 {
      HistoryWindow(t, q, n - 1);
      var h := History(t, q, n - 1);
      var w := Produced(t, ShiftN(t, q, n - 1));
      assert (h + [w])[n..] == h[n - 1..][1..] + [w];
    }
  }

  /** The recurrence o(k) = o(k - deg) + o(k - sep), for every word ever produced. */
  lemma {:induction false} Recurrence(t: nat, q: seq<Word>, n: nat, k: nat)
    requires 0 < t < MAX_TYPES && |q| == Deg(t) && Deg(t) <= k < Deg(t) + n
    ensures 0 < Sep(t) < Deg(t)
    ensures var h := History(t, q, n); h[k] == Add(h[k - Deg(t)], h[k - Sep(t)])
    decreases n
  {
    hide Deg, Sep;
    DegSep(t);
    var h := History(t, q, n - 1);
    if k < Deg(t) + n - 1 {
      Recurrence(t, q, n - 1, k);
    } else {
      HistoryWindow(t, q, n - 1);
      assert ShiftN(t, q, n - 1) == h[n - 1..];
    }
  }

  // ---------------------------------------------------------------- the array with its pointers

  /** The window that starts at the front pointer of a cyclic array. */
  function Window(x: seq<Word>, f: nat): (q: seq<Word>)
    requires f <= |x|
    ensures |q| == |x|
  {
    x[f..] + x[..f]
  }

  /** One call on the array is one shift of the window. */
  lemma WindowStep(x: seq<Word>, f: nat, r: nat, t: nat)
    requires 0 < t < MAX_TYPES && |x| == Deg(t) && r < Deg(t) && f == (r + Sep(t)) % Deg(t)
    ensures f < |x| && Produced(t, Window(x, f)) == Add(x[f], x[r])
    ensures var x' := x[f := Add(x[f], x[r])];
      Window(x', if f + 1 >= Deg(t) then 0 else f + 1) == Shift(t, Window(x, f))
  {
    hide Deg, Sep, Add;
    DegSep(t);
    PointerGap(r, Sep(t), Deg(t), f);
    var q := Window(x, f);
    assert q[0] == x[f];
    assert q[Deg(t) - Sep(t)] == x[r];
    var x' := x[f := Add(x[f], x[r])];
    assert x'[f + 1..] == x[f + 1..] && x'[..f + 1] == x[..f] + [Add(x[f], x[r])];
    assert q[1..] == x[f + 1..] + x[..f];
    if f + 1 == Deg(t) {
      assert x'[0..] + x'[..0] == x'[..f + 1];
    }
  }

  lemma PointerGap(r: nat, sep: nat, deg: nat, f: nat)
    requires r < deg && 0 < sep < deg && f == (r + sep) % deg
    ensures f == if r + sep < deg then r + sep else r + sep - deg
  {
    ModRange(r + sep, deg);
  }

  lemma ModRange(x: nat, deg: nat)
    requires 0 < deg && x < 2 * deg
    ensures x % deg == if x < deg then x else x - deg
  {
    if x >= deg {
      assert x == deg * 1 + (x - deg);
      assert x / deg == 1;
    }
  }

  /** The front and rear pointers never both wrap, so the rear one need not be tested when the
      front one wraps. */
  lemma NotBoth(r: nat, f: nat, t: nat)
    requires 0 < t < MAX_TYPES && r < Deg(t) && f == (r + Sep(t)) % Deg(t)
    ensures f + 1 == Deg(t) ==> r + 1 < Deg(t)
    ensures (if f + 1 == Deg(t) then 0 else f + 1) == ((if r + 1 == Deg(t) then 0 else r + 1) + Sep(t)) % Deg(t)
  {
    hide Deg, Sep;
    DegSep(t);
    PointerGap(r, Sep(t), Deg(t), f);
    var r' := if r + 1 == Deg(t) then 0 else r + 1;
    ModRange(r' + Sep(t), Deg(t));
  }

  // ---------------------------------------------------------------- saved state arrays

  function Need(t: nat): nat
    requires t < MAX_TYPES
  {
    if t == 0 then 2 else Deg(t) + 1
  }

  /** Word 0 of a state array multiplexes the generator type and the rear pointer. */
  predicate HeaderOk(a: seq<Word>) {
    |a| > 0 && (var t := a[0] % MAX_TYPES; Need(t) <= |a| && (t > 0 ==> a[0] / MAX_TYPES < Deg(t)))
  }

  function Front(rear: nat, t: nat): (f: nat)
    requires 0 < t < MAX_TYPES
    ensures f < Deg(t)
  {
    DegSep(t);
    (rear + Sep(t)) % Deg(t)
  }

  /** The window of the words a[1..] with the rear pointer at rear. */
  function WindowAt(a: seq<Word>, t: nat, rear: nat): (q: seq<Word>)
    requires t < MAX_TYPES && Need(t) <= |a|
    ensures |q| == if t == 0 then 1 else Deg(t)
  {
    if t == 0 then [a[1]] else Window(a[1..Deg(t) + 1], Front(rear, t))
  }

  /** The generator a state array holds when it is not the current one. */
  function Stored(a: seq<Word>): seq<Word>
    requires HeaderOk(a)
  {
    WindowAt(a, a[0] % MAX_TYPES, a[0] / MAX_TYPES)
  }

  lemma HeaderRoundTrip(t: nat, rear: nat)
    requires t < MAX_TYPES
    ensures (MAX_TYPES * rear + t) % MAX_TYPES == t && (MAX_TYPES * rear + t) / MAX_TYPES == rear
  {
  }

  class Rand {
    var tbl: array<Word>          // state is &tbl[1]
    var typ: nat                  // rand_type
    var f: nat                    // fptr - state
    var r: nat                    // rptr - state

    /** The pointers are sep apart, modulo deg. */
    ghost predicate Ready()
      reads this, tbl
    {
      typ < MAX_TYPES && Need(typ) <= tbl.Length && (typ > 0 ==> r < Deg(typ) && f == Front(r, typ))
    }

    ghost predicate Valid()
      reads this, tbl
    {
      Ready() && HeaderOk(tbl[..]) && tbl[0] % MAX_TYPES == typ
    }

    ghost function Abs(): seq<Word>
      requires typ < MAX_TYPES && Need(typ) <= tbl.Length
      reads this, tbl
    {
      WindowAt(tbl[..], typ, r)
    }

    /** random_unlocked for TYPE_0. */
    method DrawLinear() returns (i: nat)
      requires Ready() && typ == 0
      modifies tbl
      ensures Ready() && Abs() == Shift(0, old(Abs())) && tbl[0] == old(tbl[0])
      ensures i == Output(0, Produced(0, old(Abs()))) && i < 0x8000_0000
    {
      hide Lcg31;
      Lcg31Range(tbl[1]);
      tbl[1] := Lcg31(tbl[1]);
      i := tbl[1];
      assert tbl[..][0] == old(tbl[..])[0];
    }

    /** random_unlocked for the other types. */
    method DrawFeedback() returns (i: nat)
      requires Ready() && typ > 0
      modifies this`f, this`r, tbl
      ensures Ready() && Abs() == Shift(typ, old(Abs())) && tbl[0] == old(tbl[0])
      ensures i == Output(typ, Produced(typ, old(Abs()))) && i < 0x8000_0000
      ensures r == (old(r) + 1) % Deg(typ)
    {
      hide Deg, Sep, Add, Shift, Produced, WindowAt, Front;
      ghost var a, t := tbl[..], typ;
      ArrayStep(a, t, r);
      DegSep(t);
      tbl[1 + f] := Add(tbl[1 + f], tbl[1 + r]);
      assert tbl[..] == a[1 + f := Add(a[1 + f], a[1 + r])];
      i := tbl[1 + f] / 2;
      if f + 1 >= Deg(typ) {
        f := 0;
        r := r + 1;
      } else {
        f := f + 1;
        if r + 1 >= Deg(typ) {
          r := 0;
        } else {
          r := r + 1;
        }
      }
    }

    /** random_unlocked. */
    method Draw() returns (i: nat)
      requires Ready()
      modifies this`f, this`r, tbl
      ensures Ready() && Abs() == Shift(typ, old(Abs())) && tbl[0] == old(tbl[0])
      ensures i == Output(typ, Produced(typ, old(Abs()))) && i < 0x8000_0000
      ensures typ > 0 ==> r == (old(r) + 1) % Deg(typ)
    {
      hide Deg, Sep, Shift, Produced, WindowAt, HeaderOk;
      if typ == 0 {
        i := DrawLinear();
      } else {
        i := DrawFeedback();
      }
    }

    /** n calls of random. */
    method DrawMany(n: nat)
      requires Ready()
      modifies this`f, this`r, tbl
      ensures Ready() && Abs() == ShiftN(typ, old(Abs()), n) && tbl[0] == old(tbl[0])
      ensures typ > 0 ==> r == (old(r) + n) % Deg(typ)
    {
      hide Deg, Sep, Shift, Produced, WindowAt, HeaderOk;
      var i := 0;
      assert typ > 0 ==> old(r) % Deg(typ) == old(r) by { if typ > 0 { ModRange(r, Deg(typ)); } }
      while i < n
        invariant 0 <= i <= n && Ready() && Abs() == ShiftN(typ, old(Abs()), i) && tbl[0] == old(tbl[0])
        invariant typ > 0 ==> r == (old(r) + i) % Deg(typ)
      {
        if typ > 0 {
          ModNext(old(r) + i, Deg(typ));
        }
        var _ := Draw();
        i := i + 1;
      }
    }

    /** srandom_unlocked: seed the array, then cycle it 10 * deg times. */
    method Srandom(x: Word)
      requires typ < MAX_TYPES && Need(typ) <= tbl.Length
      modifies this`f, this`r, tbl
      ensures Ready() && tbl[0] == old(tbl[0])
      ensures Abs() == Seeded(typ, x) && (typ > 0 ==> r == 0)
    {
      hide Deg, Sep, Shift, ShiftN, Produced, Front, Lcg, SeedWords, Window;
      if typ == 0 {
        tbl[1] := x;
      } else {
        DegSep(typ);
        SeedArray(x, Deg(typ));
        FrontOf(typ);
        f := Sep(typ);
        r := 0;
        assert tbl[..][1..Deg(typ) + 1] == tbl[1..Deg(typ) + 1];
        DrawMany(10 * Deg(typ));
        Unique(10 * Deg(typ), Deg(typ), 10, 0);
      }
    }

    /** The seeding loop of srandom. */
    method SeedArray(x: Word, deg: nat)
      requires 0 < deg < tbl.Length
      modifies tbl
      ensures tbl[0] == old(tbl[0]) && tbl[1..deg + 1] == SeedWords(x, deg)
      ensures tbl[1] == x
      ensures forall k :: 2 <= k <= deg ==> tbl[k] as int == (1103515245 * (tbl[k - 1] as int) + 12345) % 0x1_0000_0000
    {
      hide Lcg;
      tbl[1] := x;
      var i := 1;
      while i < deg
        invariant 1 <= i <= deg && tbl[0] == old(tbl[0]) && tbl[1..i + 1] == SeedWords(x, i)
        invariant tbl[1] == x
        invariant forall k :: 2 <= k <= i ==>
                    tbl[k] as int == (1103515245 * (tbl[k - 1] as int) + 12345) % 0x1_0000_0000
      {
        ghost var s := tbl[1..i + 1];
        assert tbl[i] == s[i - 1];
        LcgIs(tbl[i]);
        tbl[i + 1] := Lcg(tbl[i]);
        assert tbl[1..i + 2] == s + [tbl[i + 1]];
        i := i + 1;
      }
    }

    /** setstate. The type and the rear position are read before the current state is saved. */
    method SetState(arr: array<Word>)
      requires Valid() && HeaderOk(arr[..])
      modifies this, tbl
      ensures Valid() && tbl == arr && typ == old(arr[0]) % MAX_TYPES
      ensures tbl[1..] == old(arr[1..]) && (typ > 0 ==> r == old(arr[0]) / MAX_TYPES)
      // the state left behind holds the old generator, the new one goes on where it was left
      ensures arr != old(tbl) ==> HeaderOk(old(tbl)[..]) && Stored(old(tbl)[..]) == old(Abs())
      ensures arr != old(tbl) ==> old(tbl)[0] % MAX_TYPES == old(typ) && Abs() == old(Stored(arr[..]))
    {
      hide Deg, Sep, Front, WindowAt;
      var kind := arr[0] % MAX_TYPES;
      var rear := arr[0] / MAX_TYPES;
      ghost var a := arr[..];
      SaveHeader();
      typ := kind;
      tbl := arr;
      assert arr != old(tbl) ==> tbl[..] == a;
      assert tbl[1..] == a[1..];
      if typ != 0 {
        r := rear;
        f := Front(rear, typ);
      }
      LinearRear(a, r, rear);
    }

    /** initstate with n bytes of state in arr. NULL is answered for fewer than 8 bytes. */
    method InitState(seed: Word, arr: array<Word>, n: nat) returns (ok: bool)
      requires Valid() && n <= 4 * arr.Length
      modifies this, tbl, arr
      ensures ok <==> n >= 8
      ensures ok ==> Valid() && tbl == arr && typ == TypeFor(n) && Abs() == Seeded(typ, seed)
      // the largest generator whose words, and the header, fit in n bytes
      ensures ok ==> (typ > 0 ==> 4 * (Deg(typ) + 1) <= n) && (typ < 4 ==> n < 4 * (Deg(typ + 1) + 1))
      ensures arr != old(tbl) ==>
                HeaderOk(old(tbl)[..]) && Stored(old(tbl)[..]) == old(Abs()) && old(tbl)[0] % MAX_TYPES == old(typ)
      ensures !ok ==> Valid() && tbl == old(tbl) && Abs() == old(Abs())
    {
      hide WindowAt, Seeded, Front;
      LargestFits(n);
      SaveHeader();
      if n < 8 {
        return false;
      }
      ok := true;
      ghost var left := tbl[..];
      if n < 32 {
        typ := 0;
      } else if n < 64 {
        typ := 1;
      } else if n < 128 {
        typ := 2;
      } else if n < 256 {
        typ := 3;
      } else {
        typ := 4;
      }
      hide Deg, Sep;
      assert Need(typ) <= arr.Length by { EnoughRoom(n, arr.Length); }
      tbl := arr;
      Srandom(seed);
      SaveHeader();
      assert arr != old(tbl) ==> old(tbl)[..] == left;
    }

    /** The save at the start of initstate and setstate. */
    method SaveHeader()
      requires Ready()
      modifies tbl
      ensures Ready() && HeaderOk(tbl[..]) && tbl[0] % MAX_TYPES == typ && tbl[1..] == old(tbl[1..])
      ensures Stored(tbl[..]) == Abs() == old(Abs())
      ensures tbl[0] == if typ == 0 then 0 else 5 * r + typ
    {
      hide Deg, Sep, Front;
      if typ > 0 {
        DegSep(typ);
      }
      tbl[0] := if typ == 0 then 0 else MAX_TYPES * r + typ;
      HeaderRoundTrip(typ, r);
      assert tbl[..][1..] == tbl[1..] == old(tbl[1..]);
      SameWords(old(tbl[..]), tbl[..], typ, r);
    }
  }

  /** The best generator n bytes have room for. */
  function TypeFor(n: nat): (t: nat)
    ensures t < MAX_TYPES
  {
    if n < 32 then 0 else if n < 64 then 1 else if n < 128 then 2 else if n < 256 then 3 else 4
  }

  lemma EnoughRoom(n: nat, len: nat)
    requires 8 <= n <= 4 * len
    ensures Need(TypeFor(n)) <= len
  {
  }

  lemma LinearRear(a: seq<Word>, r: nat, rear: nat)
    requires 2 <= |a|
    ensures WindowAt(a, 0, r) == WindowAt(a, 0, rear)
  {
  }

  /** Switching to another state array, drawing from it and switching back resumes the stream
      that was left, and the other array has moved on by exactly the draws made. */
  method SwitchAndBack(g: Rand, b: array<Word>, n: nat)
    requires g.Valid() && b != g.tbl && HeaderOk(b[..])
    modifies g, g.tbl, b
    ensures g.Valid() && g.tbl == old(g.tbl) && g.typ == old(g.typ) && g.Abs() == old(g.Abs())
    ensures HeaderOk(b[..]) && b[0] % MAX_TYPES == old(b[0] % MAX_TYPES)
    ensures Stored(b[..]) == ShiftN(b[0] % MAX_TYPES, old(Stored(b[..])), n)
  {
    hide WindowAt, Stored, ShiftN, Front, Deg, Sep;
    var a := g.tbl;
    g.SetState(b);
    ghost var left := a[..];
    g.DrawMany(n);
    assert a[..] == left;
    assert b[..][0] == b[0];
    g.SetState(a);
  }

  // ---------------------------------------------------------------- setstate on the current array

  /** The place n further on around d places. */
  lemma LargestFits(n: nat)
    ensures var t := TypeFor(n); (t > 0 ==> 4 * (Deg(t) + 1) <= n) && (t < 4 ==> n < 4 * (Deg(t + 1) + 1))
  {
  }

  function Turned(k: nat, n: nat, d: nat): (r: nat)
    requires d > 0
    ensures r < d
  {
    (k + n) % d
  }

  predicate TurnsAt(x: seq<Word>, n: nat, k: nat)
    requires k < |x|
  {
    x[k] == x[Turned(k, n, |x|)]
  }

  /** Turning x by n places gives x again. */
  predicate Turns(x: seq<Word>, n: nat) {
    forall k :: 0 <= k < |x| ==> TurnsAt(x, n, k)
  }

  lemma {:induction false} ModAdd(a: nat, b: nat, d: nat)
    requires d > 0
    ensures (a % d + b) % d == (a + b) % d
  {
    if b == 0 {
      ModRange(a % d, d);
    } else {
      ModAdd(a, b - 1, d);
      ModNext(a % d + b - 1, d);
      ModNext(a + b - 1, d);
    }
  }

  lemma TurnedMod(a: nat, b: nat, d: nat)
    requires d > 0
    ensures Turned(a % d, b, d) == Turned(a, b, d)
  {
    ModAdd(a, b, d);
  }

  lemma TurnedMore(k: nat, m: nat, n: nat, d: nat)
    requires d > 0
    ensures Turned(k + m, n, d) == Turned(k, m + n, d)
  {
    assert k + m + n == k + (m + n);
  }

  lemma TurnedTwice(k: nat, m: nat, n: nat, d: nat)
    requires d > 0
    ensures Turned(Turned(k, m, d), n, d) == Turned(k, m + n, d) == Turned(Turned(k, n, d), m, d)
  {
    hide Turned;
    TurnedIs(k, m, d);
    TurnedMod(k + m, n, d);
    TurnedMore(k, m, n, d);
    TurnedIs(k, n, d);
    TurnedMod(k + n, m, d);
    TurnedMore(k, n, m, d);
  }

  lemma TurnedRound(k: nat, d: nat)
    requires k < d
    ensures Turned(k, d, d) == k
  {
    ModRange(k + d, d);
  }

  lemma WindowWord(x: seq<Word>, f: nat, k: nat)
    requires f < |x| && k < |x|
    ensures Window(x, f)[k] == x[Turned(f, k, |x|)]
  {
    ModRange(f + k, |x|);
  }

  /** Word k of two windows n places apart. */
  lemma WindowPair(x: seq<Word>, f: nat, n: nat, k: nat)
    requires f < |x| && k < |x|
    ensures Window(x, f)[k] == Window(x, Turned(f, n, |x|))[k] <==> TurnsAt(x, n, Turned(f, k, |x|))
  {
    hide Window, Turned;
    WindowWord(x, f, k);
    WindowWord(x, Turned(f, n, |x|), k);
    TurnedTwice(f, n, k, |x|);
  }

  /** Windows n places apart are equal exactly when the words turn by n places. */
  lemma WindowTurns(x: seq<Word>, f: nat, n: nat)
    requires f < |x|
    ensures Window(x, f) == Window(x, Turned(f, n, |x|)) <==> Turns(x, n)
  {
    hide Window, Turned, TurnsAt;
    var p, q := Window(x, f), Window(x, Turned(f, n, |x|));
    if Turns(x, n) {
      forall k | 0 <= k < |x| ensures p[k] == q[k] { WindowPair(x, f, n, k); }
    }
    if p == q {
      forall j | 0 <= j < |x|
        ensures TurnsAt(x, n, j)
      {
        var k := Turned(j, |x| - f, |x|);
        WindowPair(x, f, n, k);
        ThereAndBack(j, f, |x|);
      }
    }
  }

  lemma ThereAndBack(j: nat, f: nat, d: nat)
    requires j < d && f < d
    ensures Turned(f, Turned(j, d - f, d), d) == j
  {
    TurnedTwice(j, d - f, f, d);
    TurnedRound(j, d);
    assert Turned(f, Turned(j, d - f, d), d) == Turned(Turned(j, d - f, d), f, d) by {
      Commuted(f, Turned(j, d - f, d), d);
    }
  }

  lemma Commuted(a: nat, b: nat, d: nat)
    requires d > 0
    ensures Turned(a, b, d) == Turned(b, a, d)
  {
    assert a + b == b + a;
  }

  /** The rear position n places after h gives the window of h exactly when the state words turn
      by n places. */
  lemma PositionMatters(a: seq<Word>, t: nat, h: nat, n: nat)
    requires 0 < t < MAX_TYPES && Need(t) <= |a| && h < Deg(t)
    ensures WindowAt(a, t, h) == WindowAt(a, t, (h + n) % Deg(t)) <==> Turns(a[1..Deg(t) + 1], n)
  {
    hide Deg, Sep, Turns, Window, Front, Turned;
    DegSep(t);
    var x := a[1..Deg(t) + 1];
    FrontTurned(h, t);
    FrontTurned(Turned(h, n, |x|), t);
    TurnedTwice(h, n, Sep(t), |x|);
    assert Turned(h, n, |x|) == (h + n) % Deg(t) by { TurnedIs(h, n, |x|); }
    WindowTurns(x, Front(h, t), n);
  }

  lemma TurnedIs(k: nat, n: nat, d: nat)
    requires d > 0
    ensures Turned(k, n, d) == (k + n) % d
  {
  }

  lemma FrontTurned(r: nat, t: nat)
    requires 0 < t < MAX_TYPES
    ensures 0 < Deg(t) && Front(r, t) == Turned(r, Sep(t), Deg(t))
  {
    DegSep(t);
  }

  predicate AllDistinct(x: seq<Word>) { forall i, j :: 0 <= i < j < |x| ==> x[i] != x[j] }

  /** Distinct words turn only by multiples of their number. */
  lemma DistinctTurns(x: seq<Word>, n: nat)
    requires x != []
    ensures n % |x| == 0 ==> Turns(x, n)
    ensures AllDistinct(x) && Turns(x, n) ==> n % |x| == 0
  {
    hide Turned;
    if n % |x| == 0 {
      forall k | 0 <= k < |x|
        ensures TurnsAt(x, n, k)
      {
        StaleHeader(k, n, |x|);
        TurnedIs(k, n, |x|);
      }
    } else {
      StaleHeader(0, n, |x|);
      TurnedIs(0, n, |x|);
      assert Turns(x, n) ==> TurnsAt(x, n, 0);
    }
  }

  /** n draws after a save, the saved position is the current one exactly when n is a multiple
      of deg. */
  lemma StaleHeader(h: nat, n: nat, d: nat)
    requires h < d
    ensures (h + n) % d == h <==> n % d == 0
  {
    var q, m := n / d, n % d;
    assert h + n == d * q + (h + m);
    if h + m < d {
      Unique(h + n, d, q, h + m);
    } else {
      assert d * (q + 1) == d * q + d;
      Unique(h + n, d, q + 1, h + m - d);
    }
  }

  /** So setstate on the current state array keeps the stream exactly when the state words turn
      by the number of draws since the last switch to it; with distinct words, exactly when that
      number is a multiple of deg. */
  method SetSameState(g: Rand, n: nat)
    requires g.Valid() && g.typ > 0 && g.tbl[0] / MAX_TYPES == g.r
    modifies g, g.tbl
    ensures g.Valid() && g.tbl == old(g.tbl) && g.typ == old(g.typ)
    ensures g.Abs() == ShiftN(g.typ, old(g.Abs()), n) <==> Turns(g.tbl[1..Deg(g.typ) + 1], n)
    ensures n % Deg(g.typ) == 0 ==> g.Abs() == ShiftN(g.typ, old(g.Abs()), n)
    ensures AllDistinct(g.tbl[1..Deg(g.typ) + 1]) ==>
      (g.Abs() == ShiftN(g.typ, old(g.Abs()), n) <==> n % Deg(g.typ) == 0)
  {
    hide WindowAt, ShiftN, Front, Deg, Sep, Stored, Turns, AllDistinct;
    g.DrawMany(n);
    ghost var a, r := g.tbl[..], g.r;
    assert a[0] == g.tbl[0];
    g.SetState(g.tbl);
    SameWords(a, g.tbl[..], g.typ, r);
    PositionMatters(g.tbl[..], g.typ, g.r, n);
    assert g.tbl[..][1..Deg(g.typ) + 1] == g.tbl[1..Deg(g.typ) + 1];
    DegSep(g.typ);
    DistinctTurns(g.tbl[1..Deg(g.typ) + 1], n);
  }

  /** The next words after a draw from the window q: in the stream, and one rear position back. */
  lemma OneBack(b: seq<Word>, q: seq<Word>)
    requires |b| == 8 && |q| == 7 && WindowAt(b, 1, 1) == Shift(1, q)
    ensures Produced(1, Shift(1, q)) == Add(q[1], q[5])
    ensures Produced(1, WindowAt(b, 1, 0)) == Add(Add(q[0], q[4]), q[4])
  {
    hide Add;
    var x := b[1..8];
    assert WindowAt(b, 1, 1) == Window(x, 4) && WindowAt(b, 1, 0) == Window(x, 3);
    assert x[3] == Window(x, 4)[6] == Produced(1, q) && x[0] == Window(x, 4)[3] == q[4];
    assert Window(x, 3)[0] == x[3] && Window(x, 3)[4] == x[0];
  }

  lemma FirstWindow(a: seq<Word>)
    requires a == [1, 10, 20, 30, 40, 51, 62, 73]
    ensures HeaderOk(a) && Stored(a) == WindowAt(a, 1, 0)
    ensures var q := Stored(a); q[0] == 40 && q[1] == 51 && q[4] == 10 && q[5] == 20
  {
    hide Front, Window;
    assert a[0] == 1 && a[0] % MAX_TYPES == 1 && a[0] / MAX_TYPES == 0;
    FrontOf(1);
    Fourth(a[1..8]);
  }

  lemma Fourth(x: seq<Word>)
    requires |x| == 7
    ensures var q := Window(x, 3); q[0] == x[3] && q[1] == x[4] && q[4] == x[0] && q[5] == x[1]
  {
  }

  /** State words on which it fails: one draw after a switch to this array, the stream goes on with
      the number 35, and setstate of the same array makes random return 30. */
  method SameStateFails(arr: array<Word>) returns (g: Rand, i: nat)
    requires arr[..] == [1, 10, 20, 30, 40, 51, 62, 73]
    modifies arr
    ensures g.Valid() && g.tbl == arr && g.typ == 1 && i == 30
    ensures old(HeaderOk(arr[..])) && Output(1, Produced(1, ShiftN(1, old(Stored(arr[..])), 1))) == 35
  {
    hide Produced, WindowAt, Window, Front, Shift;
    ghost var q := WindowAt(arr[..], 1, 0);
    FirstWindow(arr[..]);
    FrontOf(1);
    g := new Rand;
    g.tbl, g.typ, g.f, g.r := arr, 1, 3, 0;
    assert g.Abs() == q;
    i := g.DrawFeedback();
    ghost var b := arr[..];
    OneBack(b, q);
    assert ShiftN(1, q, 1) == Shift(1, ShiftN(1, q, 0));
    g.SetState(arr);
    SameWords(b, arr[..], 1, 0);
    i := g.DrawFeedback();
  }

  function SeedWords(x: Word, n: nat): (s: seq<Word>)
    ensures |s| == n
  {
    if n == 0 then [] else if n == 1 then [x] else (var s := SeedWords(x, n - 1); s + [Lcg(s[n - 2])])
  }

  /** The window srandom leaves: the seed words with the pointers at the start, shifted. */
  function Seeded(t: nat, x: Word): seq<Word>
    requires t < MAX_TYPES
  {
    if t == 0 then [x] else DegSep(t); ShiftN(t, Window(SeedWords(x, Deg(t)), Sep(t)), 10 * Deg(t))
  }

  lemma FrontOf(t: nat)
    requires 0 < t < MAX_TYPES
    ensures Front(0, t) == Sep(t)
  {
    DegSep(t);
  }

  lemma SameWords(a: seq<Word>, b: seq<Word>, t: nat, r: nat)
    requires t < MAX_TYPES && Need(t) <= |a| == |b| && a[1..] == b[1..]
    ensures WindowAt(a, t, r) == WindowAt(b, t, r)
  {
    assert a[1] == a[1..][0] && b[1] == b[1..][0];
    assert a[1..Deg(t) + 1] == a[1..][..Deg(t)] && b[1..Deg(t) + 1] == b[1..][..Deg(t)];
  }

  lemma Lcg31Range(a: Word)
    ensures Lcg31(a) < 0x8000_0000
  {
  }

  lemma ModNext(x: nat, d: nat)
    requires d > 0
    ensures (x % d + 1) % d == (x + 1) % d
  {
    if x >= d {
      ModNext(x - d, d);
      ModDrop(x, d);
      ModDrop(x + 1, d);
    } else {
      ModRange(x, d);
    }
  }

  lemma ModDrop(x: nat, d: nat)
    requires 0 < d <= x
    ensures x % d == (x - d) % d
  {
    var q := (x - d) / d;
    assert x == d * (q + 1) + (x - d) % d;
    Unique(x, d, q + 1, (x - d) % d);
  }

  lemma Unique(x: nat, d: nat, q: nat, m: nat)
    requires d > 0 && m < d && x == d * q + m
    ensures x % d == m && x / d == q
  {
    var q' := x / d;
    Bigger(d, q, q');
    Bigger(d, q', q);
  }

  lemma {:induction false} Bigger(d: nat, a: nat, b: nat)
    ensures a > b ==> d * a >= d * b + d
    decreases a
  {
    if a > b {
      Bigger(d, a - 1, b);
      assert d * a == d * (a - 1) + d;
    }
  }

  /** One call of random on a state array of types 1 to 4. */
  lemma ArrayStep(a: seq<Word>, t: nat, r: nat)
    requires 0 < t < MAX_TYPES && Need(t) <= |a| && r < Deg(t)
    ensures var f := Front(r, t); var a' := a[1 + f := Add(a[1 + f], a[1 + r])];
      var r' := if r + 1 == Deg(t) then 0 else r + 1;
      && Produced(t, WindowAt(a, t, r)) == Add(a[1 + f], a[1 + r])
      && WindowAt(a', t, r') == Shift(t, WindowAt(a, t, r))
      && Front(r', t) == (if f + 1 == Deg(t) then 0 else f + 1)
      && (f + 1 == Deg(t) ==> r + 1 < Deg(t)) && r' == (r + 1) % Deg(t) && a'[0] == a[0]
  {
    hide Deg, Sep, Add, Shift, Produced;
    DegSep(t);
    var f, x := Front(r, t), a[1..Deg(t) + 1];
    WindowStep(x, f, r, t);
    NotBoth(r, f, t);
    ModRange(r + 1, Deg(t));
    var a' := a[1 + f := Add(a[1 + f], a[1 + r])];
    assert a'[1..Deg(t) + 1] == x[f := Add(x[f], x[r])];
  }

  // ---------------------------------------------------------------- the numbers a seed gives

  /** The degree and separation of a generator with feedback. */
  predicate Kind(t: nat, deg: nat, sep: nat) {
    || (t == 1 && deg == 7 && sep == 3) || (t == 2 && deg == 15 && sep == 1)
    || (t == 3 && deg == 31 && sep == 3) || (t == 4 && deg == 63 && sep == 1)
  }

  /** Word k of the array that srandom seeds with x. */
  function SeedWord(x: Word, k: nat): Word {
    if k == 0 then x else (1103515245 * SeedWord(x, k - 1) + 12345) % 0x1_0000_0000
  }

  /** The words in the order in which they are used: the seeds from place sep on, the seeds before
      it, and then each word the sum of the words deg and sep places back. */
  function Term(deg: nat, sep: nat, x: Word, n: nat): Word
    requires 0 < sep < deg
  {
    if n < deg - sep then SeedWord(x, sep + n)
    else if n < deg then SeedWord(x, n - (deg - sep))
    else (Term(deg, sep, x, n - deg) + Term(deg, sep, x, n - sep)) % 0x1_0000_0000
  }

  /** The linear congruential generator of type 0. */
  function Linear(x: Word, n: nat): Word {
    if n == 0 then x else (Linear(x, n - 1) * 1103515245 + 12345) % 0x8000_0000
  }

  lemma {:induction false} SeedWordsAt(x: Word, n: nat, k: nat)
    requires k < n
    ensures SeedWords(x, n)[k] == SeedWord(x, k)
    decreases n
  {
    hide Lcg;
    if n > 1 {
      if k < n - 1 {
        SeedWordsAt(x, n - 1, k);
      } else {
        SeedWordsAt(x, n - 1, k - 1);
        LcgIs(SeedWords(x, n - 1)[n - 2]);
      }
    }
  }

  lemma {:induction false} HistoryTerm(t: nat, deg: nat, sep: nat, x: Word, n: nat, k: nat)
    requires Kind(t, deg, sep) && k < deg + n
    ensures Deg(t) == deg && Sep(t) == sep
    ensures History(t, Window(SeedWords(x, deg), sep), n)[k] == Term(deg, sep, x, k)
    decreases k
  {
    KindIs(t, deg, sep);
    hide Deg, Sep, SeedWords, Kind;
    var q := Window(SeedWords(x, deg), sep);
    if k < deg {
      HistoryStart(t, q, n, k);
      SeedWordsAt(x, deg, if k < deg - sep then sep + k else k - (deg - sep));
    } else {
      Recurrence(t, q, n, k);
      HistoryTerm(t, deg, sep, x, n, k - deg);
      HistoryTerm(t, deg, sep, x, n, k - sep);
    }
  }

  lemma KindIs(t: nat, deg: nat, sep: nat)
    requires Kind(t, deg, sep)
    ensures t < MAX_TYPES && Deg(t) == deg && Sep(t) == sep && 0 < sep < deg && t > 0
  {
  }

  lemma {:induction false} HistoryStart(t: nat, q: seq<Word>, n: nat, k: nat)
    requires t < MAX_TYPES && |q| == (if t == 0 then 1 else Deg(t)) && k < |q|
    ensures History(t, q, n)[k] == q[k]
    decreases n
  {
    hide Deg, Produced, ShiftN;
    if n > 0 {
      HistoryStart(t, q, n - 1, k);
    }
  }

  lemma {:induction false} ShiftTwice(t: nat, q: seq<Word>, m: nat, n: nat)
    requires t < MAX_TYPES && |q| == if t == 0 then 1 else Deg(t)
    ensures ShiftN(t, ShiftN(t, q, m), n) == ShiftN(t, q, m + n)
    decreases n
  {
    hide Deg, Shift;
    if n > 0 {
      ShiftTwice(t, q, m, n - 1);
    }
  }

  /** Number n, from 0 on, after srandom(x). */
  lemma SeededTerm(t: nat, deg: nat, sep: nat, x: Word, n: nat)
    requires Kind(t, deg, sep)
    ensures t < MAX_TYPES && |Seeded(t, x)| == Deg(t) && t > 0 && 0 < sep < deg
    ensures Output(t, Produced(t, ShiftN(t, Seeded(t, x), n))) == Term(deg, sep, x, 11 * deg + n) / 2
  {
    KindIs(t, deg, sep);
    hide Deg, Sep, Produced, SeedWords, ShiftN, Kind, Term, Window;
    var q, m := Window(SeedWords(x, deg), sep), 10 * deg + n;
    ShiftTwice(t, q, 10 * deg, n);
    HistoryTerm(t, deg, sep, x, m + 1, deg + m);
    assert History(t, q, m + 1)[deg + m] == Produced(t, ShiftN(t, q, m));
  }

  lemma {:induction false} LinearTerm(x: Word, n: nat)
    ensures ShiftN(0, [x], n) == [Linear(x, n)]
  {
    if n > 0 {
      LinearTerm(x, n - 1);
    }
  }

  /** srandom(x) and then n + 1 calls of random: the last one returns the word of the recurrence
      11 * deg + n places into the stream of the seed, without its low bit; type 0 returns the
      linear congruential word itself. */
  method SeededDraw(g: Rand, x: Word, n: nat, ghost deg: nat, ghost sep: nat) returns (i: nat)
    requires g.Ready() && (g.typ > 0 ==> Kind(g.typ, deg, sep))
    modifies g, g.tbl
    ensures g.typ == old(g.typ) && (g.typ == 0 ==> i == Linear(x, n + 1))
    ensures g.typ > 0 ==> 0 < sep < deg && i == Term(deg, sep, x, 11 * deg + n) / 2
  {
    hide Term, Linear, Seeded, ShiftN, Produced, Kind, Shift, WindowAt;
    g.Srandom(x);
    g.DrawMany(n);
    i := g.Draw();
    if g.typ > 0 {
      SeededTerm(g.typ, deg, sep, x, n);
    } else {
      LinearStep(x, n);
    }
  }

  lemma LinearStep(x: Word, n: nat)
    ensures |Seeded(0, x)| == 1 && Output(0, Produced(0, ShiftN(0, Seeded(0, x), n))) == Linear(x, n + 1)
  {
    LinearTerm(x, n);
  }
}
