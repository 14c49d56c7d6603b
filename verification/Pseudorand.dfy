/** kern/dev/generic/pseudorand.c: the Park and Miller generator computed by Schrage's method. */
module Pseudorand {
  const A := 16807                 // MULTIPLIER
  const M := 0x7fff_ffff           // MODULUS
  const K1 := 127773
  const K2 := 2836
  const INV := 1407677000          // 16807 * INV == 1 modulo M

  predicate Seed(x: int) { 0 < x < M }

  /** The step as the documentation defines it. */
  function Step(x: int): int { A * x % M }

  lemma StepIs(x: int)
    ensures Step(x) == 16807 * x % 0x7fff_ffff
  {
  }

  predicate Int32(x: int) { -0x8000_0000 <= x <= 0x7fff_ffff }

  lemma {:induction false} ModUnique(x: int, q: int, r: int)
    requires x == M * q + r && 0 <= r < M
    ensures x % M == r && x / M == q
  {
  }

  /** Multiplying by INV undoes the step. */
  lemma StepInverse(x: int)
    requires Seed(x)
    ensures Seed(Step(x)) && INV * Step(x) % M == x
  {
    var q := A * x / M;
    var y := Step(x);
    assert A * x == M * q + y;
    assert A * INV == M * 11017 + 1;
    var z := 11017 * x - INV * q;
    calc {
      INV * y;
      INV * (A * x - M * q);
      (INV * A) * x - M * (INV * q);
      M * z + x;
    }
    ModUnique(INV * y, z, x);
  }

  /** The step is injective on the seeds. */
  lemma StepInjective(x: int, y: int)
    requires Seed(x) && Seed(y) && Step(x) == Step(y)
    ensures x == y
  {
    StepInverse(x);
    StepInverse(y);
  }

  class Pseudorand {
    var seed: int

    constructor ()
      ensures seed == 305824 && Seed(seed)
    {
      seed := 305824;
    }

    /** pseudorand_random: no intermediate leaves 32 bits, and the new seed is the step. */
    method Random() returns (r: int)
      requires Seed(seed)
      modifies this
      ensures seed == Step(old(seed)) && Seed(seed)
      ensures seed == 16807 * old(seed) % 0x7fff_ffff
      ensures r == seed - 1 && 0 <= r <= M - 2
    {
      hide Step;
      StepIs(seed);
      var hi := seed / K1;
      var lo := seed % K1;
      Schrage(seed, hi, lo);
      assert Int32(A * lo) && Int32(K2 * hi) && Int32(A * lo - K2 * hi);
      var tmp := A * lo - K2 * hi;
      if tmp <= 0 {
        assert Int32(tmp + M);
        tmp := tmp + M;
      }
      seed := tmp;
      r := seed - 1;
    }
  }

  /** Schrage's identity. */
  lemma Schrage(x: int, hi: int, lo: int)
    requires Seed(x) && hi == x / K1 && lo == x % K1
    ensures 0 <= A * lo < M && 0 <= K2 * hi < M
    ensures var t := A * lo - K2 * hi; Step(x) == (if t <= 0 then t + M else t) && Seed(Step(x))
  {
    StepInverse(x);
    var t := A * lo - K2 * hi;
    assert x == K1 * hi + lo && M == A * K1 + K2;
    assert A * x == M * hi + t;
    if t < 0 {
      ModUnique(A * x, hi - 1, t + M);
    } else {
      ModUnique(A * x, hi, t);
    }
  }

  // ---------------------------------------------------------------- periodicity

  function Iterate(x: int, n: nat): int { if n == 0 then x else Step(Iterate(x, n - 1)) }

  lemma {:induction false} IterateSeed(x: int, n: nat)
    requires Seed(x)
    ensures Seed(Iterate(x, n))
  {
    if n > 0 {
      IterateSeed(x, n - 1);
      StepInverse(Iterate(x, n - 1));
    }
  }

  /** Two equal iterates can be walked back to the start. */
  lemma {:induction false} WalkBack(x: int, i: nat, p: nat)
    requires Seed(x) && Iterate(x, i) == Iterate(x, i + p)
    ensures Iterate(x, p) == x
  {
    if i > 0 {
      IterateSeed(x, i - 1);
      IterateSeed(x, i - 1 + p);
      StepInjective(Iterate(x, i - 1), Iterate(x, i - 1 + p));
      WalkBack(x, i - 1, p);
    }
  }

  function Orbit(x: int, n: nat): set<int> { if n == 0 then {} else Orbit(x, n - 1) + {Iterate(x, n - 1)} }

  lemma {:induction false} OrbitMember(x: int, n: nat, y: int)
    requires y in Orbit(x, n)
    ensures exists i :: 0 <= i < n && Iterate(x, i) == y
  {
    if y != Iterate(x, n - 1) {
      OrbitMember(x, n - 1, y);
    }
  }

  lemma {:induction false} OrbitSeeds(x: int, n: nat)
    requires Seed(x)
    ensures forall y :: y in Orbit(x, n) ==> Seed(y)
  {
    if n > 0 {
      OrbitSeeds(x, n - 1);
      IterateSeed(x, n - 1);
    }
  }

  /** Without a period below n, the first n iterates are n different seeds. */
  lemma {:induction false} OrbitSize(x: int, n: nat)
    requires Seed(x) && (forall p :: 0 < p < n ==> Iterate(x, p) != x)
    ensures |Orbit(x, n)| == n
  {
    hide Step;
    if n > 0 {
      OrbitSize(x, n - 1);
      if Iterate(x, n - 1) in Orbit(x, n - 1) {
        OrbitMember(x, n - 1, Iterate(x, n - 1));
        var i :| 0 <= i < n - 1 && Iterate(x, i) == Iterate(x, n - 1);
        WalkBack(x, i, n - 1 - i);
      }
    }
  }

  function Seeds(n: nat): (s: set<int>)
    ensures forall y :: y in s <==> 0 < y <= n
    ensures |s| == n
  {
    if n == 0 then {} else Seeds(n - 1) + {n}
  }

  // ---------------------------------------------------------------- the period is as long as it can be

  const N := 2147483646            // M - 1 == 2 * 3 * 3 * 7 * 11 * 31 * 151 * 331, the number of seeds

  lemma {:induction false} IterateAdd(x: int, m: nat, n: nat)
    ensures Iterate(x, m + n) == Iterate(Iterate(x, m), n)
  {
    if n > 0 {
      IterateAdd(x, m, n - 1);
    }
  }

  function Times(a: int, b: int): int { a * b % M }

  lemma TimesMod(a: int, b: int)
    ensures Times(a, b % M) == Times(a, b) == Times(a % M, b)
  {
    var q, r := b / M, b % M;
    assert b == M * q + r;
    assert a * b == M * (a * q) + a * r;
    ModShift(a * r, a * q);
    var q', r' := a / M, a % M;
    assert a == M * q' + r';
    assert a * b == M * (q' * b) + r' * b;
    ModShift(r' * b, q' * b);
  }

  lemma ModShift(x: int, k: int)
    ensures (M * k + x) % M == x % M
  {
    ModUnique(M * k + x, k + x / M, x % M);
  }

  lemma TimesThrice(a: int, b: int, c: int)
    ensures Times(a, Times(b, c)) == Times(Times(a, b), c)
  {
    TimesMod(a, b * c);
    TimesMod(a * b, c);
    assert a * (b * c) == a * b * c;
  }

  lemma {:induction false} PowersAdd(m: nat, n: nat)
    ensures Iterate(1, m + n) == Times(Iterate(1, m), Iterate(1, n))
  {
    hide Times;
    if m == 0 {
      TimesOne(n);
    } else {
      PowersAdd(m - 1, n);
      StepTimes(Iterate(1, m - 1));
      StepTimes(Iterate(1, m + n - 1));
      TimesThrice(A, Iterate(1, m - 1), Iterate(1, n));
      assert m + n - 1 == m - 1 + n;
    }
  }

  lemma StepTimes(x: int)
    ensures Step(x) == Times(A, x)
  {
  }

  lemma TimesOne(n: nat)
    ensures Times(1, Iterate(1, n)) == Iterate(1, n)
  {
  }

  lemma Doubled(n: nat)
    ensures Iterate(1, 2 * n) == Times(Iterate(1, n), Iterate(1, n))
  {
    PowersAdd(n, n);
    assert n + n == 2 * n;
  }

  /** One hexadecimal digit d more in the exponent: v is the power for n, t the one for d, and
      a, b, c, e are the squares between v and its 16th power. */
  lemma Hex(n: nat, v: int, a: int, b: int, c: int, e: int, d: nat, t: int, w: int)
    requires Iterate(1, n) == v && Iterate(1, d) == t
    requires a == Times(v, v) && b == Times(a, a) && c == Times(b, b) && e == Times(c, c) && w == Times(e, t)
    ensures Iterate(1, 16 * n + d) == w
  {
    hide Iterate, Times;
    Doubled(n);
    Doubled(2 * n);
    Doubled(4 * n);
    Doubled(8 * n);
    PowersAdd(16 * n, d);
  }

  lemma Small()
    ensures Iterate(1, 0) == 1
    ensures Iterate(1, 1) == 16807 && Iterate(1, 2) == 282475249 && Iterate(1, 3) == 1622650073
    ensures Iterate(1, 4) == 984943658 && Iterate(1, 5) == 1144108930 && Iterate(1, 6) == 470211272
    ensures Iterate(1, 7) == 101027544 && Iterate(1, 8) == 1457850878 && Iterate(1, 9) == 1458777923
    ensures Iterate(1, 10) == 2007237709 && Iterate(1, 11) == 823564440 && Iterate(1, 12) == 1115438165
    ensures Iterate(1, 13) == 1784484492 && Iterate(1, 14) == 74243042 && Iterate(1, 15) == 114807987
  {
    Once(0, 1, 16807);
    Once(1, 16807, 282475249);
    Once(2, 282475249, 1622650073);
    Once(3, 1622650073, 984943658);
    Once(4, 984943658, 1144108930);
    Once(5, 1144108930, 470211272);
    Once(6, 470211272, 101027544);
    Once(7, 101027544, 1457850878);
    Once(8, 1457850878, 1458777923);
    Once(9, 1458777923, 2007237709);
    Once(10, 2007237709, 823564440);
    Once(11, 823564440, 1115438165);
    Once(12, 1115438165, 1784484492);
    Once(13, 1784484492, 74243042);
    Once(14, 74243042, 114807987);
  }

  lemma Once(n: nat, v: int, w: int)
    requires Iterate(1, n) == v && w == A * v % M
    ensures Iterate(1, n + 1) == w
  {
  }

  lemma Power2()
    ensures Iterate(1, 1073741823) == 2147483646
  {
    hide Iterate;
    Small();
    Hex(3, 1622650073, 470211272, 1115438165, 1998097157, 1899894091, 15, 114807987, 1108728549);
    Hex(63, 1108728549, 1524325968, 1887638, 501848671, 1795289992, 15, 114807987, 754609818);
    Hex(1023, 754609818, 878627494, 2009050749, 2071703685, 1587893215, 15, 114807987, 1181132756);
    Hex(16383, 1181132756, 1101980020, 1240574072, 998581414, 963142635, 15, 114807987, 103492285);
    Hex(262143, 103492285, 1055697433, 1242312909, 1264295359, 492532464, 15, 114807987, 1799481238);
    Hex(4194303, 1799481238, 697064706, 225900933, 2100992093, 827792946, 15, 114807987, 797756594);
    Hex(67108863, 797756594, 1946561783, 1688537117, 1824949437, 1839179627, 15, 114807987, 2147483646);
  }

  lemma Power3()
    ensures Iterate(1, 715827882) == 634005911
  {
    hide Iterate;
    Small();
    Hex(2, 282475249, 984943658, 1457850878, 1137522503, 1636807826, 10, 2007237709, 2110010672);
    Hex(42, 2110010672, 1478446501, 304987844, 832861200, 476003622, 10, 2007237709, 1987502657);
    Hex(682, 1987502657, 898003988, 401868524, 512453959, 84507850, 10, 2007237709, 99284761);
    Hex(10922, 99284761, 578505488, 11294627, 1627986388, 1158865755, 10, 2007237709, 1175969859);
    Hex(174762, 1175969859, 1524724550, 1299877462, 1677815163, 1877619757, 10, 2007237709, 313625057);
    Hex(2796202, 313625057, 438271176, 446115504, 1638520455, 176702896, 10, 2007237709, 1252779437);
    Hex(44739242, 1252779437, 1388093266, 554809434, 1027646758, 920240050, 10, 2007237709, 634005911);
  }

  lemma Power7()
    ensures Iterate(1, 306783378) == 1600955193
  {
    hide Iterate;
    Small();
    Hex(1, 16807, 282475249, 984943658, 1457850878, 1137522503, 2, 282475249, 16531729);
    Hex(18, 16531729, 704877633, 824938981, 318153057, 855007065, 4, 984943658, 338725129);
    Hex(292, 338725129, 401203083, 749808928, 2110720068, 1105460498, 9, 1458777923, 184149733);
    Hex(4681, 184149733, 1588280530, 1292075693, 320365114, 795457266, 2, 282475249, 713072451);
    Hex(74898, 713072451, 808531276, 72714612, 821751376, 1691809704, 4, 984943658, 1994951511);
    Hex(1198372, 1994951511, 2080243443, 1683044520, 1970866768, 1272582736, 9, 1458777923, 1491475262);
    Hex(19173961, 1491475262, 1410082339, 1210473470, 2032255744, 1294654868, 2, 282475249, 1600955193);
  }

  lemma Power11()
    ensures Iterate(1, 195225786) == 298192073
  {
    hide Iterate;
    Small();
    Hex(11, 823564440, 1474833169, 1617819336, 1557810404, 784559590, 10, 2007237709, 462242385);
    Hex(186, 462242385, 978719103, 1763464891, 1385869610, 1047660757, 2, 282475249, 1503614727);
    Hex(2978, 1503614727, 1426595217, 1593242601, 245677251, 984865240, 14, 74243042, 2001314837);
    Hex(47662, 2001314837, 1917845806, 450369632, 703814329, 723275386, 8, 1457850878, 289296328);
    Hex(762600, 289296328, 1343207366, 2134136009, 2049340277, 1935649565, 11, 823564440, 1008979637);
    Hex(12201611, 1008979637, 547841991, 1476938629, 2065865593, 1728334681, 10, 2007237709, 298192073);
  }

  lemma Power31()
    ensures Iterate(1, 69273666) == 16384
  {
    hide Iterate;
    Small();
    Hex(4, 984943658, 1457850878, 1137522503, 1636807826, 685118024, 2, 282475249, 1060806853);
    Hex(66, 1060806853, 1400285365, 175530180, 706642601, 1680351381, 1, 16807, 108218770);
    Hex(1057, 108218770, 111398400, 2048666863, 480822013, 1593778648, 0, 1, 1593778648);
    Hex(16912, 1593778648, 1464474750, 1535817640, 911831480, 2072488627, 8, 1457850878, 2107038118);
    Hex(270600, 2107038118, 1590438532, 2141501481, 642557948, 122712502, 4, 984943658, 495975381);
    Hex(4329604, 495975381, 411385676, 424739074, 205970348, 2143103993, 2, 282475249, 16384);
  }

  lemma Power151()
    ensures Iterate(1, 14221746) == 1013763951
  {
    hide Iterate;
    Small();
    Hex(13, 1784484492, 1131570933, 1025921153, 382955828, 1104740033, 9, 1458777923, 1719533808);
    Hex(217, 1719533808, 2119315080, 876554400, 444978220, 454021550, 0, 1, 454021550);
    Hex(3472, 454021550, 2010792109, 2100574543, 1969511326, 199457713, 1, 16807, 63809424);
    Hex(55553, 63809424, 711597894, 1876427685, 506944312, 2041767666, 11, 823564440, 1422968813);
    Hex(888859, 1422968813, 1031122011, 2059074765, 758497081, 1449655222, 2, 282475249, 1013763951);
  }

  lemma Power331()
    ensures Iterate(1, 6487866) == 759513457
  {
    hide Iterate;
    Small();
    Hex(6, 470211272, 1115438165, 1998097157, 1899894091, 1816731566, 2, 282475249, 1807130337);
    Hex(98, 1807130337, 992663534, 1603481258, 320514918, 1783848212, 15, 114807987, 182048270);
    Hex(1583, 182048270, 799204591, 1592854157, 672182563, 461101996, 15, 114807987, 1349594950);
    Hex(25343, 1349594950, 924100177, 1315497955, 1048814560, 1051660835, 3, 1622650073, 150479927);
    Hex(405491, 150479927, 542140772, 302749254, 482696820, 1742270007, 10, 2007237709, 759513457);
  }

  lemma PowerWhole()
    ensures Iterate(1, N) == 1
  {
    hide Iterate;
    Power2();
    Doubled(1073741823);
    assert Times(2147483646, 2147483646) == 1;
  }

  // ---------------------------------------------------------------- divisors

  ghost predicate Divides(d: nat, n: nat) { exists k: nat :: d * k == n }

  /** No d in 2 .. n divides q. */
  predicate NoneUpTo(q: nat, n: nat) { n < 2 || (q % n != 0 && NoneUpTo(q, n - 1)) }

  lemma {:induction false} NoneMeans(q: nat, n: nat, d: nat)
    requires NoneUpTo(q, n) && 2 <= d <= n
    ensures !Divides(d, q)
  {
    if d < n {
      NoneMeans(q, n - 1, d);
    } else if k: nat :| d * k == q {
      Exact(d, k);
      assert false;
    }
  }

  lemma Exact(d: nat, k: nat)
    requires d > 0
    ensures d * k % d == 0
  {
    var x := d * k;
    var q, r := x / d, x % d;
    assert d * (k - q) == r;
    assert k - q >= 1 ==> d * (k - q) >= d;
    assert k - q <= -1 ==> d * (q - k) >= d;
  }

  /** p has no divisor up to s, and s is at least its square root. */
  predicate Prime(p: nat, s: nat) { p >= 2 && NoneUpTo(p, s) && p < (s + 1) * (s + 1) }

  lemma PrimeMeans(p: nat, s: nat, g: nat)
    requires Prime(p, s) && g > 0 && Divides(g, p)
    ensures g == 1 || g == p
  {
    hide NoneUpTo;
    var x: nat :| g * x == p;
    assert x * g == p;
    assert Divides(x, p);
    assert g > s && x > s ==> g * x >= (s + 1) * (s + 1) by { Bigger(g, x, s + 1); }
    if 2 <= g <= s {
      NoneMeans(p, s, g);
      assert false;
    }
    if 2 <= x <= s {
      NoneMeans(p, s, x);
      assert false;
    }
  }

  lemma Bigger(g: nat, x: nat, z: nat)
    ensures g >= z && x >= z ==> g * x >= z * z
  {
    if g >= z && x >= z {
      assert g * x >= g * z >= z * z;
    }
  }

  lemma Combined(a: nat, b: nat, q: nat, r: nat, g: nat)
    requires a == b * q + r && Divides(g, b) && Divides(g, r)
    ensures Divides(g, a)
  {
    var x: nat :| g * x == b;
    var y: nat :| g * y == r;
    assert g * (x * q + y) == g * x * q + g * y;
  }

  lemma Carried(a: int, b: int, q: int, r: int, u: int, v: int)
    requires a == b * q + r
    ensures u * b + v * r == v * a + (u - v * q) * b
  {
    assert v * r == v * a - v * (b * q);
    assert v * (b * q) == v * q * b;
    assert (u - v * q) * b == u * b - v * q * b;
  }

  /** Bezout: a common divisor that is a combination of the two numbers. */
  lemma {:induction false} Bezout(a: nat, b: nat) returns (g: nat, u: int, v: int)
    requires a > 0 || b > 0
    ensures g > 0 && Divides(g, a) && Divides(g, b) && g == u * a + v * b
    decreases b
  {
    if b == 0 {
      g, u, v := a, 1, 0;
      assert a * 1 == a && a * 0 == b;
    } else {
      var q, r := a / b, a % b;
      assert a == b * q + r;
      var u', v';
      g, u', v' := Bezout(b, r);
      hide Divides;
      Combined(a, b, q, r, g);
      Carried(a, b, q, r, u', v');
      u, v := v', u' - v' * q;
    }
  }

  lemma BezoutTimes(k: int, p: int, m: int, u: int, v: int, z: int)
    requires u * k + v * p == 1 && k * z == p * m
    ensures k * (u * m + v * z) == m
  {
    calc {
      k * (u * m + v * z);
      { Distributed(k, u * m, v * z); }
      k * (u * m) + k * (v * z);
      { Exchanged(k, u, m); Exchanged(k, v, z); }
      (u * k) * m + v * (k * z);
      { Exchanged(p, v, m); }
      (u * k) * m + (v * p) * m;
      { Distributed(m, u * k, v * p); }
      (u * k + v * p) * m;
      m;
    }
  }

  lemma Distributed(a: int, b: int, c: int)
    ensures a * (b + c) == a * b + a * c && (b + c) * a == b * a + c * a
  {
  }

  lemma Exchanged(a: int, b: int, c: int)
    ensures a * (b * c) == (b * a) * c == b * (a * c)
  {
  }

  lemma Cancelled(k: nat, p: nat, m: nat, u: int, v: int)
    requires u * k + v * p == 1 && Divides(k, p * m) && k > 0
    ensures Divides(k, m)
  {
    var z: nat :| k * z == p * m;
    BezoutTimes(k, p, m, u, v, z);
    var w := u * m + v * z;
    NonNegative(k, w);
    assert k * w == m;
  }

  lemma NonNegative(k: nat, w: int)
    requires k > 0 && k * w >= 0
    ensures w >= 0
  {
    assert w <= -1 ==> k * w < 0;
  }

  /** If k divides p * m for a prime p, then p divides k or k divides m. */
  lemma PrimeSplit(k: nat, p: nat, s: nat, m: nat)
    requires Prime(p, s) && k > 0 && Divides(k, p * m)
    ensures Divides(p, k) || Divides(k, m)
  {
    hide Divides, Prime;
    var g, u, v := Bezout(k, p);
    PrimeMeans(p, s, g);
    if g == 1 {
      Cancelled(k, p, m, u, v);
    }
  }

  lemma Primes()
    ensures Prime(2, 1) && Prime(3, 1) && Prime(7, 2) && Prime(11, 3)
    ensures Prime(31, 5) && Prime(151, 12) && Prime(331, 18)
  {
    assert NoneUpTo(31, 5);
    assert NoneUpTo(151, 4);
    assert NoneUpTo(151, 8);
    assert NoneUpTo(151, 12);
    assert NoneUpTo(331, 4);
    assert NoneUpTo(331, 8);
    assert NoneUpTo(331, 12);
    assert NoneUpTo(331, 16);
    assert NoneUpTo(331, 18);
  }

  /** k has a prime factor of N. */
  ghost predicate HasFactor(k: nat) {
    || Divides(2, k) || Divides(3, k) || Divides(7, k) || Divides(11, k)
    || Divides(31, k) || Divides(151, k) || Divides(331, k)
  }

  /** A divisor of N other than 1 has one. */
  lemma PrimeFactor(k: nat)
    requires k > 1 && Divides(k, N)
    ensures HasFactor(k)
  {
    hide Divides, Prime;
    Primes();
    PrimeSplit(k, 2, 1, 1073741823);
    if Divides(k, 1073741823) { PrimeSplit(k, 3, 1, 357913941); }
    if Divides(k, 357913941) { PrimeSplit(k, 3, 1, 119304647); }
    if Divides(k, 119304647) { PrimeSplit(k, 7, 2, 17043521); }
    if Divides(k, 17043521) { PrimeSplit(k, 11, 3, 1549411); }
    if Divides(k, 1549411) { PrimeSplit(k, 31, 5, 49981); }
    if Divides(k, 49981) { PrimeSplit(k, 151, 12, 331); }
    if Divides(k, 331) { PrimeSplit(k, 331, 18, 1); }
    if Divides(k, 1) {
      UnitDivisor(k);
      assert false;
    }
  }

  lemma UnitDivisor(k: nat)
    requires Divides(k, 1)
    ensures k == 1
  {
    var x: nat :| k * x == 1;
    assert k >= 2 && x >= 1 ==> k * x >= k;
  }

  // ---------------------------------------------------------------- the order of the multiplier

  lemma {:induction false} Rounds(a: nat, k: nat, r: nat)
    requires Iterate(1, a) == 1
    ensures Iterate(1, a * k + r) == Iterate(1, r)
  {
    hide Iterate;
    if k == 0 {
      assert a * k + r == r;
    } else {
      IterateAdd(1, a, a * (k - 1) + r);
      assert a + (a * (k - 1) + r) == a * k + r;
      Rounds(a, k - 1, r);
    }
  }

  /** Two periods of 1 have a common divisor that is one. */
  lemma {:induction false} CommonPeriod(a: nat, b: nat) returns (g: nat)
    requires a > 0 && Iterate(1, a) == 1 && Iterate(1, b) == 1
    ensures g > 0 && Divides(g, a) && Divides(g, b) && Iterate(1, g) == 1
    decreases b
  {
    hide Iterate;
    if b == 0 {
      g := a;
      assert a * 1 == a && a * 0 == b;
    } else {
      var q, r := a / b, a % b;
      assert a == b * q + r;
      Rounds(b, q, r);
      g := CommonPeriod(b, r);
      Combined(a, b, q, r, g);
    }
  }

  /** A period g of 1 with N == g * k, where the prime q divides k, is a period N / q. */
  lemma Quotient(g: nat, k: nat, q: nat, n: nat)
    requires g * k == N && Divides(q, k) && q > 0 && q * n == N && Iterate(1, g) == 1
    ensures Iterate(1, n) == 1
  {
    hide Iterate;
    var y: nat :| q * y == k;
    assert q * (g * y) == g * (q * y);
    SameFactor(q, g * y, n);
    Rounds(g, y, 0);
    assert Iterate(1, 0) == 1 by { Zeroth(); }
  }

  lemma Zeroth()
    ensures Iterate(1, 0) == 1
  {
  }

  lemma SameFactor(q: nat, a: nat, b: nat)
    requires q > 0 && q * a == q * b
    ensures a == b
  {
    assert a > b ==> q * (a - b) >= q;
    assert a < b ==> q * (b - a) >= q;
  }

  /** 16807 generates: 1 has no period shorter than N. */
  lemma Generates(p: nat)
    requires 0 < p < N
    ensures Iterate(1, p) != 1
  {
    hide Iterate, Divides;
    if Iterate(1, p) == 1 {
      PowerWhole();
      var g := CommonPeriod(p, N);
      var k := Cofactor(g, p);
      PrimeFactor(k);
      NoQuotient(g, k);
      assert false;
    }
  }

  lemma Cofactor(g: nat, p: nat) returns (k: nat)
    requires 0 < p < N && g > 0 && Divides(g, p) && Divides(g, N)
    ensures k > 1 && g * k == N && Divides(k, N)
  {
    k :| g * k == N;
    var x: nat :| g * x == p;
    assert k * g == N;
    assert x >= 1 ==> g * x >= g;
  }

  lemma NoQuotient(g: nat, k: nat)
    requires g * k == N && Iterate(1, g) == 1
    ensures !HasFactor(k)
  {
    hide Iterate, Divides;
    Power2();
    if Divides(2, k) {
      Quotient(g, k, 2, 1073741823);
      assert false;
    }
    Power3();
    if Divides(3, k) {
      Quotient(g, k, 3, 715827882);
      assert false;
    }
    Power7();
    if Divides(7, k) {
      Quotient(g, k, 7, 306783378);
      assert false;
    }
    Power11();
    if Divides(11, k) {
      Quotient(g, k, 11, 195225786);
      assert false;
    }
    Power31();
    if Divides(31, k) {
      Quotient(g, k, 31, 69273666);
      assert false;
    }
    Power151();
    if Divides(151, k) {
      Quotient(g, k, 151, 14221746);
      assert false;
    }
    Power331();
    if Divides(331, k) {
      Quotient(g, k, 331, 6487866);
      assert false;
    }
  }

  /** Every legal seed is an iterate of 1. */
  lemma Reached(x: int) returns (i: nat)
    requires Seed(x)
    ensures i < N && Iterate(1, i) == x
  {
    hide Step, Iterate, Orbit, Seeds;
    forall p | 0 < p < N ensures Iterate(1, p) != 1 { Generates(p); }
    OrbitSize(1, N);
    OrbitSeeds(1, N);
    SubsetWhole(Orbit(1, N), Seeds(N));
    OrbitMember(1, N, x);
    i :| 0 <= i < N && Iterate(1, i) == x;
  }

  lemma SubsetWhole(a: set<int>, b: set<int>)
    requires a <= b && |a| == |b|
    ensures a == b
  {
    assert |b| == |a| + |b - a| by { assert a + (b - a) == b; }
  }

  /** Full period: from every legal seed the generator runs through all 2^31 - 2 of them before
      it comes back. */
  lemma FullPeriod(x: int)
    requires Seed(x)
    ensures Iterate(x, N) == x && forall p :: 0 < p < N ==> Iterate(x, p) != x
    ensures forall y :: Seed(y) ==> y in Orbit(x, N)
  {
    hide Step, Iterate, Orbit, Seeds;
    var i := Reached(x);
    PowerWhole();
    IterateAdd(1, i, N);
    Rounds(N, 1, i);
    assert N * 1 + i == i + N;
    forall p | 0 < p < N
      ensures Iterate(x, p) != x
    {
      IterateAdd(1, i, p);
      Generates(p);
      if Iterate(x, p) == x {
        WalkBack(1, i, p);
      }
    }
    OrbitSize(x, N);
    OrbitSeeds(x, N);
    SubsetWhole(Orbit(x, N), Seeds(N));
  }
}
