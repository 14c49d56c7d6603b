/** What the integer conversions of printf print, and what atoi reads, in terms of the value of a
    string of digits in any base. */
module FormatRead {
  import opened Format

  /** The value of a digit character, and -1 for any other. */
  function CharValue(c: char): int {
    if '0' <= c <= '9' then c as int - '0' as int
    else if 'a' <= c <= 'f' then c as int - 'a' as int + 10
    else -1
  }

  predicate DigitIn(c: char, base: nat) { 0 <= CharValue(c) < base }

  predicate DigitsOnly(s: string, base: nat) { forall i :: 0 <= i < |s| ==> DigitIn(s[i], base) }

  /** The number a string of digits spells, the most significant one first. */
  function Value(s: string, base: nat): (v: nat)
    requires DigitsOnly(s, base)
  {
    if s == "" then 0 else Value(s[..|s| - 1], base) * base + CharValue(s[|s| - 1])
  }

  /** s spells n in the base without needless zeros. */
  predicate Spells(s: string, n: nat, base: nat) {
    s != "" && DigitsOnly(s, base) && Value(s, base) == n && (s[0] == '0' ==> s == "0")
  }

  // ---------------------------------------------------------------- digits

  lemma DigitChar(d: nat)
    requires d < 16
    ensures CharValue(Digit(d)) == d && (Digit(d) == '0' <==> d == 0)
  {
  }

  lemma {:induction false} ValueMore(s: string, c: char, base: nat)
    requires DigitsOnly(s, base) && DigitIn(c, base)
    ensures DigitsOnly(s + [c], base) && Value(s + [c], base) == Value(s, base) * base + CharValue(c)
  {
    assert (s + [c])[..|s|] == s;
  }

  lemma {:induction false} DigitsSpell(n: nat, base: nat)
    requires 2 <= base <= 16
    ensures Spells(Digits(n, base), n, base)
    ensures n > 0 ==> Digits(n, base) != "" && Digits(n, base)[0] != '0'
    decreases n
  {
    hide Digit, CharValue, Spells;
    if n < base {
      SpellsOne(n, base);
    } else {
      DivMod(n, base);
      DigitsSpell(n / base, base);
      SpellsMore(Digits(n / base, base), n / base, n % base, base);
    }
  }

  lemma SpellsOne(d: nat, base: nat)
    requires d < base <= 16
    ensures Spells([Digit(d)], d, base) && (d > 0 ==> [Digit(d)][0] != '0')
  {
    hide Digit, CharValue;
    DigitChar(d);
    ValueMore("", Digit(d), base);
    assert "" + [Digit(d)] == [Digit(d)];
  }

  lemma SpellsMore(h: string, m: nat, d: nat, base: nat)
    requires Spells(h, m, base) && m > 0 && h[0] != '0' && d < base <= 16
    ensures Spells(h + [Digit(d)], m * base + d, base) && (h + [Digit(d)])[0] != '0'
  {
    hide Digit, CharValue, Value;
    DigitChar(d);
    ValueMore(h, Digit(d), base);
  }

  lemma DivMod(n: nat, base: nat)
    requires 2 <= base <= n
    ensures 0 < n / base && n / base * base + n % base == n
  {
  }

  // ---------------------------------------------------------------- the layout of a field

  /** The base of a conversion. */
  predicate InBase(c: char, base: nat) {
    || (c == 'd' && base == 10) || (c == 'u' && base == 10) || (c == 'o' && base == 8)
    || (c == 'x' && base == 16) || (c == 'p' && base == 16)
  }

  /** What stands before the digits: a minus sign, and 0x or 0 when # is given; %p always has it. */
  function Before(mods: string, c: char, w: Word): string {
    if c == 'd' then (if w >= 0x8000_0000 then "-" else "")
    else if c == 'p' || (c == 'x' && '#' in mods) then "0x"
    else if c == 'o' && '#' in mods then "0"
    else ""
  }

  /** The absolute value of the argument. */
  function Size(c: char, w: Word): nat { if c == 'd' && w >= 0x8000_0000 then 0x1_0000_0000 - w else w }

  /** Text with prefix pre and digits d, laid out as the modifiers say. */
  function LaidOut(mods: string, pre: string, d: string): string {
    var len := |pre| + |d|;
    var n := if Width(mods) > len then Width(mods) - len else 0;
    var pad := if ZeroFill(mods) then seq(n, i => '0') else seq(n, i => ' ');
    if '-' in mods then pre + d + pad else if ZeroFill(mods) then pre + pad + d else pad + pre + d
  }

  /** Every integer conversion with every string of modifiers: the output is the prefix and digits
      that spell the argument in the base, padded to the width. */
  lemma IntegerField(e: Env, n: nat, mods: string, c: char, base: nat) returns (d: string)
    requires AllModifiers(mods) && InBase(c, base)
    ensures Spells(d, Size(c, e.arg(n)), base)
    ensures Formatted(e, Between(n), "%" + mods + [c]) == LaidOut(mods, Before(mods, c, e.arg(n)), d)
    ensures After(Between(n), "%" + mods + [c]) == Between(n + 1)
  {
    hide Formatted, After, Digits, WillZero;
    var w, q := e.arg(n), Between(n).(inPct := true);
    d := Digits(Size(c, w), base);
    DigitsSpell(Size(c, w), base);
    FieldText(e, n, mods, c);
    ModifiersQuiet(e, q, mods);
    FillIs(n, mods, After(q, mods));
    NumberIs(After(q, mods), mods, c, w, base);
  }

  /** What %s, %c and any other character print: the string, or (null) for a null pointer; the low
      byte of the argument, and nothing when it is 0; the character itself. */
  function TextOf(e: Env, n: nat, c: char): string {
    if c == 's' then (if e.arg(n) == 0 then "(null)" else e.text(e.arg(n)))
    else if c == 'c' then (if e.arg(n) % 256 == 0 then "" else [(e.arg(n) % 256) as char])
    else [c]
  }

  lemma TextField(e: Env, n: nat, mods: string, c: char)
    requires AllModifiers(mods) && c !in MODIFIERS && c !in INTEGERS
    ensures Formatted(e, Between(n), "%" + mods + [c]) == LaidOut(mods, "", TextOf(e, n, c))
    ensures After(Between(n), "%" + mods + [c]) == Between(if c == 's' || c == 'c' then n + 1 else n)
  {
    hide Formatted, After, WillZero, Padded, LaidOut, Number;
    var q := Between(n).(inPct := true);
    FieldText(e, n, mods, c);
    ModifiersQuiet(e, q, mods);
    FillIs(n, mods, After(q, mods));
    PaddedIs(After(q, mods), mods, "", TextOf(e, n, c));
  }

  lemma FillIs(n: nat, mods: string, p: PS)
    requires (p.fill == '0' <==> WillZero(Between(n).(inPct := true), mods)) && (p.fill == ' ' || p.fill == '0')
    ensures p.fill == if ZeroFill(mods) then '0' else ' '
  {
  }

  lemma NumberIs(p: PS, mods: string, c: char, w: Word, base: nat)
    requires InBase(c, base) && p.fill == (if ZeroFill(mods) then '0' else ' ') && p.spacing == Width(mods)
    requires (p.right <==> '-' in mods) && (p.alt <==> '#' in mods)
    ensures Number(p, c, w) == LaidOut(mods, Before(mods, c, w), Digits(Size(c, w), base))
  {
    hide Digits, Width, ZeroFill, Padded, LaidOut, Before;
    PrefixIs(p, mods, c, w, base);
    PaddedIs(p, mods, Before(mods, c, w), Digits(Size(c, w), base));
  }

  lemma PrefixIs(p: PS, mods: string, c: char, w: Word, base: nat)
    requires InBase(c, base) && (p.alt <==> '#' in mods)
    ensures SignPrefix(c, w) + BasePrefix(p, c) == Before(mods, c, w) && Base(c) == base
    ensures Size(c, w) == if c == 'd' then Magnitude(w) else w
  {
  }

  lemma PaddedIs(p: PS, mods: string, pre: string, d: string)
    requires p.fill == (if ZeroFill(mods) then '0' else ' ') && p.spacing == Width(mods) && (p.right <==> '-' in mods)
    ensures Padded(p, pre, d) == LaidOut(mods, pre, d)
  {
    hide Width, ZeroFill;
    var n := if p.spacing > |pre| + |d| then p.spacing - (|pre| + |d|) else 0;
    assert Fill(p.fill, n) == if ZeroFill(mods) then seq(n, i => '0') else seq(n, i => ' ');
  }

  // ---------------------------------------------------------------- reading it back

  /** The digits at the front of s, after the number acc. */
  function Scan(s: string, base: nat, acc: nat): nat {
    if s == "" || !DigitIn(s[0], base) then acc else Scan(s[1..], base, acc * base + CharValue(s[0]))
  }

  function SkipX(s: string): string { if |s| >= 2 && s[0] == '0' && s[1] == 'x' then s[2..] else s }

  /** The number at the front of s in the base: spaces, 0x in base 16, and digits. */
  function Read(s: string, base: nat): nat {
    Scan(if base == 16 then SkipX(SkipSpace(s)) else SkipSpace(s), base, 0)
  }

  lemma {:induction false} ScanValue(d: string, rest: string, base: nat)
    requires DigitsOnly(d, base)
    ensures Scan(d + rest, base, 0) == Scan(rest, base, Value(d, base))
    decreases |d|
  {
    hide CharValue;
    if d == "" {
      assert d + rest == rest;
    } else {
      var h, c := d[..|d| - 1], d[|d| - 1];
      ScanValue(h, [c] + rest, base);
      assert d + rest == h + ([c] + rest);
      assert ([c] + rest)[0] == c && ([c] + rest)[1..] == rest;
    }
  }

  lemma {:induction false} ScanZeros(k: nat, rest: string, base: nat)
    requires base >= 2
    ensures Scan(Fill('0', k) + rest, base, 0) == Scan(rest, base, 0)
  {
    if k == 0 {
      assert Fill('0', 0) + rest == rest;
    } else {
      FillStep('0', k - 1, rest);
      ScanZeros(k - 1, rest, base);
      var s := Fill('0', k) + rest;
      assert s[0] == '0' && s[1..] == Fill('0', k - 1) + rest;
    }
  }

  /** Zeros behind a number make it larger, unless it is zero. */
  lemma {:induction false} ZerosBehind(k: nat, base: nat, m: nat)
    requires base >= 2
    ensures Scan(Fill('0', k), base, m) >= m
    ensures Scan(Fill('0', k), base, m) == m <==> m == 0 || k == 0
  {
    if k > 0 {
      var s := Fill('0', k);
      assert s[0] == '0' && s[1..] == Fill('0', k - 1);
      ZerosBehind(k - 1, base, m * base);
      assert m > 0 ==> m * base >= 2 * m by { Doubled(m, base); }
    }
  }

  lemma Doubled(m: nat, base: nat)
    requires base >= 2
    ensures m * base >= 2 * m
  {
  }

  lemma SpacesBehind(k: nat, base: nat, m: nat)
    ensures Scan(Fill(' ', k), base, m) == m
  {
    assert k > 0 ==> Fill(' ', k)[0] == ' ';
  }

  /** What is read from digits with a prefix of the base in front. */
  lemma ReadPrefixed(pre: string, t: string, base: nat)
    requires pre == "" || (pre == "0x" && base == 16) || (pre == "0" && base == 8)
    requires t != "" && DigitIn(t[0], base) && (|t| >= 2 ==> t[1] != 'x') && base >= 8
    ensures Read(pre + t, base) == Scan(t, base, 0)
  {
    var s := pre + t;
    if pre == "0x" {
      assert s[0] == '0' && s[1] == 'x' && s[2..] == t;
    } else if pre == "0" {
      assert s[0] == '0' && s[1..] == t;
    } else {
      assert s == t;
      assert t[0] != ' ' && t[0] != '\t';
    }
  }

  lemma ReadSpaces(k: nat, s: string, base: nat)
    ensures Read(Fill(' ', k) + s, base) == Read(s, base)
  {
    SkipSpaces(k, s);
  }

  lemma NoX(d: string, pad: string, base: nat)
    requires d != "" && DigitsOnly(d, base) && (pad == "" || pad[0] == '0' || pad[0] == ' ')
    ensures var t := d + pad; DigitIn(t[0], base) && (|t| >= 2 ==> t[1] != 'x')
  {
    var t := d + pad;
    if |t| >= 2 {
      assert t[1] == if |d| >= 2 then d[1] else pad[0];
    }
  }

  lemma NoXZeros(k: nat, d: string, base: nat)
    requires d != "" && DigitsOnly(d, base) && base >= 2
    ensures var t := Fill('0', k) + d; DigitIn(t[0], base) && (|t| >= 2 ==> t[1] != 'x')
  {
    var t := Fill('0', k) + d;
    assert t[0] == if k > 0 then '0' else d[0];
    if |t| >= 2 {
      assert t[1] == if k > 1 then '0' else d[1 - k];
    }
  }

  /** For every unsigned conversion and every string of modifiers, the number comes back, read in
      its base, unless zeros were padded behind a nonzero number. */
  lemma UnsignedBack(e: Env, mods: string, c: char, base: nat) returns (d: string)
    requires AllModifiers(mods) && InBase(c, base) && c != 'd'
    ensures Spells(d, e.arg(0), base)
    ensures Read(Formatted(e, START, "%" + mods + [c]), base) == e.arg(0) <==>
            !('-' in mods && ZeroFill(mods) && Width(mods) > |Before(mods, c, e.arg(0))| + |d| && e.arg(0) != 0)
  {
    hide Read, Formatted, Value, Scan, Width, ZeroFill;
    var w := e.arg(0);
    d := IntegerField(e, 0, mods, c, base);
    assert Between(0) == START;
    var pre := Before(mods, c, w);
    var k := if Width(mods) > |pre| + |d| then Width(mods) - (|pre| + |d|) else 0;
    if '-' in mods {
      var ch := if ZeroFill(mods) then '0' else ' ';
      var pad := Fill(ch, k);
      assert LaidOut(mods, pre, d) == pre + (d + pad);
      NoX(d, pad, base);
      ReadPrefixed(pre, d + pad, base);
      ScanValue(d, pad, base);
      ZerosBehind(k, base, w);
      SpacesBehind(k, base, w);
    } else if ZeroFill(mods) {
      assert LaidOut(mods, pre, d) == pre + (Fill('0', k) + d);
      NoXZeros(k, d, base);
      ReadPrefixed(pre, Fill('0', k) + d, base);
      ScanZeros(k, d, base);
      ScanAll(d, base);
    } else {
      assert LaidOut(mods, pre, d) == Fill(' ', k) + (pre + d);
      ReadSpaces(k, pre + d, base);
      NoX(d, "", base);
      assert d + "" == d;
      ReadPrefixed(pre, d, base);
      ScanAll(d, base);
    }
  }

  lemma ScanAll(d: string, base: nat)
    requires DigitsOnly(d, base)
    ensures Scan(d, base, 0) == Value(d, base)
  {
    ScanValue(d, "", base);
    assert d + "" == d;
  }

  // ---------------------------------------------------------------- atoi

  predicate Blank(s: string) { forall i :: 0 <= i < |s| ==> s[i] == ' ' || s[i] == '\t' }

  lemma {:induction false} SkipBlank(ws: string, t: string)
    requires Blank(ws)
    ensures SkipSpace(ws + t) == SkipSpace(t)
  {
    if ws == "" {
      assert ws + t == t;
    } else {
      assert (ws + t)[0] == ws[0] && (ws + t)[1..] == ws[1..] + t;
      SkipBlank(ws[1..], t);
    }
  }

  lemma {:induction false} ParseValue(d: string, rest: string)
    requires DigitsOnly(d, 10)
    ensures Parse(d + rest, 0) == Parse(rest, Value(d, 10))
    decreases |d|
  {
    if d == "" {
      assert d + rest == rest;
    } else {
      var h, c := d[..|d| - 1], d[|d| - 1];
      ParseValue(h, [c] + rest);
      assert d + rest == h + ([c] + rest);
      assert DigitIn(c, 10);
      ParseStep(c, rest, Value(h, 10));
    }
  }

  /** The value of x as a 32-bit int. */
  function AsInt(x: int): int {
    var m := x % 0x1_0000_0000;
    if m < 0x8000_0000 then m else m - 0x1_0000_0000
  }

  /** Every string is blanks, a sign or none, digits, and a rest that is not looked at; atoi reads
      the digits, with the sign, as a 32-bit int. Without digits it reads 0. */
  lemma AtoiReads(ws: string, sign: string, d: string, rest: string)
    requires Blank(ws) && (sign == "" || sign == "+" || sign == "-") && DigitsOnly(d, 10)
    requires rest == "" || !DigitIn(rest[0], 10)
    requires sign == "" && d == "" && rest != "" ==> rest[0] !in {' ', '\t', '+', '-'}
    ensures Atoi(ws + sign + d + rest) == AsInt(if sign == "-" then 0 - Value(d, 10) else Value(d, 10))
  {
    hide Parse, Value, CharValue;
    var t := sign + d + rest;
    assert ws + sign + d + rest == ws + t;
    SkipBlank(ws, t);
    NotBlank(sign, d, rest);
    SignSkipped(sign, d, rest);
    ParseValue(d, rest);
    ParseStops(rest, Value(d, 10));
    InInt(Value(d, 10));
  }

  lemma NotBlank(sign: string, d: string, rest: string)
    requires (sign == "" || sign == "+" || sign == "-") && DigitsOnly(d, 10)
    requires sign == "" && d == "" && rest != "" ==> rest[0] != ' ' && rest[0] != '\t'
    ensures SkipSpace(sign + d + rest) == sign + d + rest
  {
    var t := sign + d + rest;
    if t != "" {
      assert t[0] == if sign != "" then sign[0] else if d != "" then d[0] else rest[0];
    }
  }

  lemma SignSkipped(sign: string, d: string, rest: string)
    requires (sign == "" || sign == "+" || sign == "-") && DigitsOnly(d, 10)
    requires sign == "" && d == "" && rest != "" ==> rest[0] != '+' && rest[0] != '-'
    ensures SkipSign(sign + d + rest) == d + rest && (Negative(sign + d + rest) <==> sign == "-")
  {
    var t := sign + d + rest;
    if sign == "" {
      assert t == d + rest;
      assert d != "" ==> t[0] == d[0];
    } else {
      assert t[0] == sign[0] && t[1..] == d + rest;
    }
  }

  lemma ParseStops(rest: string, v: nat)
    requires rest == "" || !DigitIn(rest[0], 10)
    ensures Parse(rest, v) == v
  {
  }

  lemma InInt(v: int)
    requires v >= 0
    ensures Signed(v % W32) == AsInt(v) && Signed((W32 - v % W32) % W32) == AsInt(0 - v)
  {
    NegMod(v);
  }

  lemma NegMod(v: int)
    requires v >= 0
    ensures (0 - v) % W32 == (W32 - v % W32) % W32
  {
    var q, r := v / W32, v % W32;
    assert 0 - v == W32 * (0 - q) - r;
  }
}
