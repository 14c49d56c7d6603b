/** lib/libc/__printf.c, lib/libc/snprintf.c and lib/libc/atoi.c: the printing machine, its
    bounded buffer and the parser, each proved against module Format. */
module Printf {
  import opened Format

  function Min(a: nat, b: nat): nat { if a < b then a else b }

  /** snprintf's context: what does not fit is dropped. sent is everything it was given. */
  class Snp {
    const buf: array<char>
    const buflen: nat
    var bufpos: nat
    ghost var sent: string
    ghost const orig: seq<char>       // what buf held at the start

    ghost predicate Valid()
      reads this, buf
    {
      && buflen <= buf.Length == |orig| && bufpos == Min(buflen, |sent|)
      && buf[..] == sent[..bufpos] + orig[bufpos..]
    }

    constructor (buf: array<char>, buflen: nat)
      requires buflen <= buf.Length
      ensures Valid() && this.buf == buf && this.buflen == buflen && sent == "" && orig == buf[..]
    {
      this.buf, this.buflen, bufpos, sent, orig := buf, buflen, 0, "", buf[..];
    }

    /** __snprintf_send. */
    method Send(data: string)
      requires Valid()
      modifies this, buf
      ensures Valid() && sent == old(sent) + data
    {
      var i := 0;
      ghost var before := sent;
      while i < |data|
        invariant 0 <= i <= |data| && Valid() && sent == before + data[..i]
      {
        if bufpos < buflen {
          buf[bufpos] := data[i];
          bufpos := bufpos + 1;
        }
        sent := sent + [data[i]];
        assert data[..i + 1] == data[..i] + [data[i]];
        i := i + 1;
      }
      assert data[..i] == data;
    }
  }

  function Pow8(k: nat): nat { if k == 0 then 1 else 8 * Pow8(k - 1) }

  function Quot(n: nat, base: nat): nat
    requires base > 0
  {
    n / base
  }

  function Rem(n: nat, base: nat): (r: nat)
    requires base > 0
    ensures r < base
  {
    n % base
  }

  /** Dropping a digit of base 8 or more. */
  lemma Pow8Step(n: nat, base: nat, k: nat)
    requires base >= 8 && n < Pow8(k + 1)
    ensures Quot(n, base) < Pow8(k) && (k == 0 ==> Quot(n, base) == 0)
    ensures if n > 0 then Quot(n, base) < n else Quot(n, base) == 0
  {
    var q := n / base;
    assert q * base <= n;
    assert q * 8 <= q * base;
  }

  class PF {
    const env: Env
    const snp: Snp
    var charcount: nat
    var inPct: bool
    var long: bool
    var num: Word
    var sign: bool
    var spacing: nat
    var right: bool
    var fill: char
    var base: nat
    var baseprefix: bool
    var alt: bool
    var next: nat

    function State(): PS
      reads this
    {
      PS(inPct, long, spacing, right, fill, alt, next)
    }

    ghost predicate Valid()
      reads this, snp, snp.buf
    {
      snp.Valid() && charcount == |snp.sent|
    }

    ghost predicate Idle()
      reads this
    {
      num == 0 && !sign && base == 0 && !baseprefix
    }

    constructor (env: Env, snp: Snp)
      requires snp.Valid() && snp.sent == ""
      ensures Valid() && Idle() && State() == START && this.env == env && this.snp == snp
    {
      this.env, this.snp := env, snp;
      charcount, inPct, long, num, sign, spacing, right := 0, false, false, 0, false, 0, false;
      fill, base, baseprefix, alt, next := ' ', 0, false, false, 0;
    }

    /** __pf_print. */
    method Print(txt: string)
      requires Valid()
      modifies this`charcount, snp, snp.buf
      ensures Valid() && snp.sent == old(snp.sent) + txt
    {
      snp.Send(txt);
      charcount := charcount + |txt|;
    }

    /** __pf_endfield. */
    method EndField()
      modifies this`inPct, this`long, this`num, this`sign, this`spacing, this`right, this`fill, this`base
      modifies this`baseprefix, this`alt
      ensures Idle() && State() == Ended(old(State()))
    {
      inPct, long, num, sign, spacing, right := false, false, 0, false, 0, false;
      fill, base, baseprefix, alt := ' ', 0, false, false;
    }

    /** __pf_modifier. */
    method Modifier(c: char)
      requires c in MODIFIERS
      modifies this`long, this`spacing, this`right, this`fill, this`alt
      ensures State() == Modified(old(State()), c)
    {
      if c == '#' {
        alt := true;
      } else if c == '-' {
        right := true;
      } else if c == 'l' || c == 'q' {
        long := true;
      } else if c == '0' {
        if spacing > 0 {
          spacing := spacing * 10;
        } else {
          fill := '0';
        }
      } else {
        if !('0' < c <= '9') {
          assert false;
        }
        spacing := spacing * 10 + DigitOf(c);
      }
    }

    /** __pf_getnum. */
    method GetNum(c: char)
      requires Idle() && c in INTEGERS
      modifies this`num, this`sign, this`next
      ensures next == old(next) + 1
      ensures num == if c == 'd' then Magnitude(env.arg(old(next))) else env.arg(old(next))
      ensures sign <==> c == 'd' && Signed(env.arg(old(next))) < 0
    {
      var w := env.arg(next);
      next := next + 1;
      if c == 'd' {
        var signednum := Signed(w);
        if signednum < 0 {
          sign := true;
          num := -signednum;
        } else {
          num := signednum;
        }
      } else {
        num := w;
      }
    }

    /** __pf_setbase. */
    method SetBase(c: char)
      requires c in INTEGERS && !baseprefix
      modifies this`base, this`baseprefix
      ensures base == Base(c) && (baseprefix <==> alt || c == 'p')
    {
      if c == 'd' || c == 'u' {
        base := 10;
      } else if c == 'x' || c == 'p' {
        base := 16;
      } else {
        base := 8;
      }
      if alt || c == 'p' {
        baseprefix := true;
      }
    }

    /** __pf_fill. */
    method PrintFill(spc: nat)
      requires Valid()
      modifies this`charcount, snp, snp.buf
      ensures Valid() && snp.sent == old(snp.sent) + Fill(fill, spc)
    {
      var i := 0;
      while i < spc
        invariant 0 <= i <= spc && Valid() && snp.sent == old(snp.sent) + Fill(fill, i)
      {
        Print([fill]);
        assert Fill(fill, i + 1) == Fill(fill, i) + [fill];
        i := i + 1;
      }
    }

    /** __pf_printstuff. */
    method PrintStuff(prefix: string, prefix2: string, stuff: string)
      requires Valid()
      modifies this`charcount, snp, snp.buf
      ensures Valid() && snp.sent == old(snp.sent) + Padded(State(), prefix + prefix2, stuff)
    {
      hide Padded, Fill, PF.Valid, Snp.Valid;
      var len := |prefix| + |prefix2| + |stuff|;
      var spc := spacing;
      if spc > len {
        spc := spc - len;
      } else {
        spc := 0;
      }
      if spc > 0 && !right && fill != '0' {
        PrintFill(spc);
      }
      Print(prefix);
      Print(prefix2);
      if spc > 0 && !right && fill == '0' {
        PrintFill(spc);
      }
      Print(stuff);
      if spc > 0 && right {
        PrintFill(spc);
      }
      PaddedParts(old(snp.sent), State(), prefix, prefix2, stuff, spc);
    }

    /** The do-while loop of __pf_printnum: the digits of num, built from the right in a buffer
        of NUMBER_BUF_SIZE bytes. */
    method Digitize() returns (text: string)
      requires 8 <= base <= 16
      ensures text == Digits(num, base)
    {
      hide Digits, Digit, Pow8, Quot, Rem;
      var buf := new char[12];
      var x: int := 11;
      buf[x] := '\0';
      x := x - 1;
      var xnum: nat, more := num, true;
      Pow8Eleven();
      while more
        invariant -1 <= x <= 10 && (more ==> 0 <= x && xnum < Pow8(x + 1))
        invariant Digits(num, base) == (if more then Digits(xnum, base) else "") + buf[x + 1..11]
        decreases more, xnum
      {
        ghost var tail := buf[x + 1..11];
        buf[x] := Digit(Rem(xnum, base));
        assert buf[x..11] == [Digit(Rem(xnum, base))] + tail;
        DigitsStep(xnum, base);
        Pow8Step(xnum, base, x);
        x := x - 1;
        xnum := Quot(xnum, base);
        more := xnum > 0;
      }
      x := x + 1;
      text := buf[x..11];
    }

    /** __pf_printnum. */
    method PrintNum()
      requires Valid() && 8 <= base <= 16
      modifies this`charcount, snp, snp.buf
      ensures Valid()
      ensures snp.sent == old(snp.sent) + Padded(State(),
        (if sign then "-" else "") +
        (if baseprefix && base == 16 then "0x" else if baseprefix && base == 8 then "0" else ""),
        Digits(num, base))
    {
      hide Padded, Digits;
      var x := Digitize();
      var bprefix;
      if baseprefix && base == 16 {
        bprefix := "0x";
      } else if baseprefix && base == 8 {
        bprefix := "0";
      } else {
        bprefix := "";
      }
      var sprefix := if sign then "-" else "";
      PrintStuff(sprefix, bprefix, x);
    }

    /** The integer types: fetch, set the base, print, reset. */
    method PrintInteger(c: char)
      requires Valid() && Idle() && c in INTEGERS
      modifies this, snp, snp.buf
      ensures Valid() && Idle() && State() == Ended(old(State()).(next := old(next) + 1))
      ensures snp.sent == old(snp.sent) + Number(old(State()), c, env.arg(old(next)))
    {
      hide Padded, Digits, Snp.Valid, Fill, Signed, Magnitude;
      ghost var p := State();
      GetNum(c);
      SetBase(c);
      PrintNum();
      PaddedNext(p, p.next + 1, SignPrefix(c, env.arg(p.next)) + BasePrefix(p, c), Digits(num, base));
      EndField();
    }

    /** __pf_send: one character of the format. */
    method Send(c: char)
      requires Valid() && Idle() && c != '\0'
      modifies this, snp, snp.buf
      ensures Valid() && Idle()
      ensures State() == Next(old(State()), c) && snp.sent == old(snp.sent) + Emitted(env, old(State()), c)
    {
      hide Padded, Digits, Snp.Valid, Fill, Number, Modified;
      if !inPct && c != '%' {
        Print([c]);
      } else if !inPct {
        inPct := true;
      } else if c in MODIFIERS {
        Modifier(c);
      } else if c in INTEGERS {
        PrintInteger(c);
      } else if c == 's' {
        ghost var p := State();
        var w := env.arg(next);
        next := next + 1;
        var str := if w == 0 then "(null)" else env.text(w);
        PrintStuff("", "", str);
        PaddedNext(p, p.next + 1, "", str);
        EndField();
      } else {
        ghost var p := State();
        var x;
        if c == 'c' {
          x := CharText(env.arg(next));
          next := next + 1;
        } else {
          x := [c];
        }
        PrintStuff("", "", x);
        PaddedNext(p, State().next, "", x);
        EndField();
      }
    }
  }

  lemma Pow8Eleven()
    ensures Pow8(11) >= W32
  {
    assert Pow8(4) == 4096;
    assert Pow8(8) == 4096 * 4096;
  }

  lemma DigitsStep(n: nat, base: nat)
    requires 2 <= base <= 16
    ensures Digits(n, base) == (if Quot(n, base) > 0 then Digits(Quot(n, base), base) else "") + [Digit(Rem(n, base))]
  {
    if n < base {
      SmallQuotient(n, base);
    } else {
      BigQuotient(n, base);
    }
  }

  lemma SmallQuotient(n: nat, base: nat)
    requires n < base
    ensures n / base == 0 && n % base == n
  {
  }

  lemma BigQuotient(n: nat, base: nat)
    requires 0 < base <= n
    ensures n / base > 0
  {
  }

  lemma PaddedNext(p: PS, n: nat, prefix: string, stuff: string)
    ensures Padded(p.(next := n), prefix, stuff) == Padded(p, prefix, stuff)
    ensures "" + "" == ""
  {
  }

  lemma PaddedParts(before: string, p: PS, a: string, b: string, stuff: string, spc: nat)
    requires spc == if p.spacing > |a| + |b| + |stuff| then p.spacing - |a| - |b| - |stuff| else 0
    ensures before + Padded(p, a + b, stuff) ==
      (if spc > 0 && !p.right && p.fill != '0' then before + Fill(p.fill, spc) else before) + a + b +
      (if spc > 0 && !p.right && p.fill == '0' then Fill(p.fill, spc) else "") + stuff +
      (if spc > 0 && p.right then Fill(p.fill, spc) else "")
  {
    assert spc == 0 ==> Fill(p.fill, spc) == "";
  }

  /** __vprintf into a bounded buffer. */
  method Vprintf(snp: Snp, fmt: string, env: Env) returns (chars: nat)
    requires snp.Valid() && snp.sent == "" && '\0' !in fmt
    modifies snp, snp.buf
    ensures snp.Valid() && snp.sent == Formatted(env, START, fmt) && chars == |snp.sent|
  {
    hide Emitted, Next, Snp.Valid;
    var pf := new PF(env, snp);
    var i := 0;
    while i < |fmt|
      invariant 0 <= i <= |fmt| && pf.Valid() && pf.Idle() && pf.snp == snp && pf.env == env
      invariant snp.sent + Formatted(env, pf.State(), fmt[i..]) == Formatted(env, START, fmt)
    {
      assert fmt[i..][0] == fmt[i] && fmt[i..][1..] == fmt[i + 1..];
      pf.Send(fmt[i]);
      i := i + 1;
    }
    chars := pf.charcount;
  }

  /** vsnprintf: the first min(len - 1, total) characters and a NUL; the total is returned. */
  method Vsnprintf(buf: array<char>, len: nat, fmt: string, env: Env) returns (chars: nat)
    requires len <= buf.Length && '\0' !in fmt
    modifies buf
    ensures chars == |Formatted(env, START, fmt)|
    ensures len == 0 ==> buf[..] == old(buf[..])
    ensures len > 0 ==>
              var k := Min(len - 1, chars);
              buf[..] == Formatted(env, START, fmt)[..k] + ['\0'] + old(buf[..])[k + 1..]
  {
    hide Formatted;
    var snp := new Snp(buf, if len == 0 then 0 else len - 1);
    chars := Vprintf(snp, fmt, env);
    ghost var k, b := snp.bufpos, buf[..];
    if len > 0 {
      buf[snp.bufpos] := '\0';
      Terminated(b, snp.sent[..k], snp.orig, k);
      assert buf[..] == b[k := '\0'];
    } else {
      assert snp.sent[..0] + snp.orig[0..] == snp.orig;
    }
  }

  lemma Terminated(b: string, a: string, orig: string, k: nat)
    requires |a| == k < |orig| && b == a + orig[k..]
    ensures b[k := '\0'] == a + ['\0'] + orig[k + 1..]
  {
  }

  function Mod32(n: nat): Word { n % W32 }

  /** The digit loop of atoi: the value accumulates in 32 bits. */
  method ParseDigits32(s: string) returns (val: Word)
    ensures val == Parse(s, 0) % W32
  {
    hide Mod32;
    var i := 0;
    val := 0;
    ghost var wide: nat := 0;
    ModStep(0, 0);
    while i < |s| && IsDigit(s[i])
      invariant 0 <= i <= |s| && val == Mod32(wide) && Parse(s[i..], wide) == Parse(s, 0)
    {
      assert s[i..][0] == s[i] && s[i..][1..] == s[i + 1..];
      ModStep(wide, DigitOf(s[i]));
      wide := wide * 10 + DigitOf(s[i]);
      val := Mod32(val * 10 + DigitOf(s[i]));
      i := i + 1;
    }
    ModIs(wide);
  }

  /** atoi. Reading at the end of s gives NUL. */
  method ParseInt(s: string) returns (r: int)
    requires '\0' !in s
    ensures r == Atoi(s)
  {
    hide Signed, Parse;
    var i := 0;
    while i < |s| && (s[i] == ' ' || s[i] == '\t')
      invariant 0 <= i <= |s| && SkipSpace(s[i..]) == SkipSpace(s)
    {
      assert s[i..][1..] == s[i + 1..];
      i := i + 1;
    }
    ghost var t := s[i..];
    assert t == SkipSpace(s);
    var neg := false;
    if i < |s| && s[i] == '-' {
      neg := true;
      i := i + 1;
    } else if i < |s| && s[i] == '+' {
      i := i + 1;
    }
    assert s[i..] == SkipSign(t);
    var val := ParseDigits32(s[i..]);
    r := Signed(if neg then (W32 - val) % W32 else val);
  }

  lemma ModStep(wide: nat, d: nat)
    ensures Mod32(Mod32(wide) * 10 + d) == Mod32(wide * 10 + d) && Mod32(0) == 0
  {
    var q, v := wide / W32, wide % W32;
    assert wide * 10 + d == W32 * (10 * q) + (v * 10 + d);
    ModShift(10 * q, v * 10 + d);
  }

  lemma ModIs(n: nat)
    ensures Mod32(n) == n % W32
  {
  }

  lemma {:induction false} ModShift(q: nat, x: nat)
    ensures (W32 * q + x) % W32 == x % W32
  {
    if q > 0 {
      ModShift(q - 1, x);
      assert W32 * q + x == W32 * (q - 1) + x + W32;
    }
  }
}
