/** What the printf family prints, as a function of the format and the arguments, and what atoi
    reads (lib/libc/__printf.c, lib/libc/atoi.c). */
module Format {
  const W32 := 0x1_0000_0000

  type Word = w: nat | w < 0x1_0000_0000

  /** The k-th argument word, and the string at an address. */
  datatype Env = Env(arg: nat -> Word, text: Word -> string)

  /** The part of the printf state that lasts from one format character to the next. */
  datatype PS = PS(inPct: bool, long: bool, spacing: nat, right: bool, fill: char, alt: bool, next: nat)

  function Ended(p: PS): PS { PS(false, false, 0, false, ' ', false, p.next) }

  const START := PS(false, false, 0, false, ' ', false, 0)

  const MODIFIERS := "#-ql0123456789"
  const INTEGERS := "doupx"

  function DigitOf(c: char): nat
    requires '0' <= c <= '9'
  {
    (c as int) - ('0' as int)
  }

  function Modified(p: PS, c: char): PS
    requires c in MODIFIERS
  {
    if c == '#' then p.(alt := true)
    else if c == '-' then p.(right := true)
    else if c == 'l' || c == 'q' then p.(long := true)
    else if c == '0' && p.spacing == 0 then p.(fill := '0')
    else p.(spacing := p.spacing * 10 + DigitOf(c))
  }

  // ---------------------------------------------------------------- numbers

  function Digit(d: nat): char
    requires d < 16
  {
    "0123456789abcdef"[d]
  }

  function Digits(n: nat, base: nat): string
    requires 2 <= base <= 16
  {
    if n < base then [Digit(n)] else Digits(n / base, base) + [Digit(n % base)]
  }

  function Signed(w: Word): int { if w < 0x8000_0000 then w else w - W32 }
  function Magnitude(w: Word): Word { if w < 0x8000_0000 then w else W32 - w }

  function Base(c: char): nat { if c == 'x' || c == 'p' then 16 else if c == 'o' then 8 else 10 }

  function Fill(c: char, n: nat): string { seq(n, i => c) }

  /** A field: prefix and stuff, padded to the field width. */
  function Padded(p: PS, prefix: string, stuff: string): string {
    var len := |prefix| + |stuff|;
    var pad := Fill(p.fill, if p.spacing > len then p.spacing - len else 0);
    if p.right then prefix + stuff + pad
    else if p.fill == '0' then prefix + pad + stuff
    else pad + prefix + stuff
  }

  function SignPrefix(c: char, w: Word): string { if c == 'd' && Signed(w) < 0 then "-" else "" }

  function BasePrefix(p: PS, c: char): string {
    if (p.alt || c == 'p') && Base(c) == 16 then "0x" else if (p.alt || c == 'p') && Base(c) == 8 then "0" else ""
  }

  function Number(p: PS, c: char, w: Word): string {
    Padded(p, SignPrefix(c, w) + BasePrefix(p, c), Digits(if c == 'd' then Magnitude(w) else w, Base(c)))
  }

  /** The one-character string of %c: empty for NUL. */
  function CharText(w: Word): string { if w % 256 == 0 then "" else [(w % 256) as char] }

  function Field(e: Env, p: PS, c: char): string {
    if c in INTEGERS then Number(p, c, e.arg(p.next))
    else if c == 's' then Padded(p, "", if e.arg(p.next) == 0 then "(null)" else e.text(e.arg(p.next)))
    else if c == 'c' then Padded(p, "", CharText(e.arg(p.next)))
    else Padded(p, "", [c])
  }

  predicate TakesArg(c: char) { c in INTEGERS || c == 's' || c == 'c' }

  // ---------------------------------------------------------------- formats

  function Next(p: PS, c: char): PS {
    if !p.inPct then (if c == '%' then p.(inPct := true) else p)
    else if c in MODIFIERS then Modified(p, c)
    else Ended(if TakesArg(c) then p.(next := p.next + 1) else p)
  }

  function Emitted(e: Env, p: PS, c: char): string {
    if !p.inPct then (if c == '%' then "" else [c])
    else if c in MODIFIERS then ""
    else Field(e, p, c)
  }

  function After(p: PS, fmt: string): PS
    decreases |fmt|
  {
    if fmt == "" then p else After(Next(p, fmt[0]), fmt[1..])
  }

  function Formatted(e: Env, p: PS, fmt: string): string
    decreases |fmt|
  {
    if fmt == "" then "" else Emitted(e, p, fmt[0]) + Formatted(e, Next(p, fmt[0]), fmt[1..])
  }

  lemma {:induction false} FormattedConcat(e: Env, p: PS, a: string, b: string)
    ensures Formatted(e, p, a + b) == Formatted(e, p, a) + Formatted(e, After(p, a), b)
    ensures After(p, a + b) == After(After(p, a), b)
    decreases |a|
  {
    hide Emitted, Next;
    if a == "" {
      assert a + b == b;
    } else {
      assert (a + b)[0] == a[0] && (a + b)[1..] == a[1..] + b;
      FormattedConcat(e, Next(p, a[0]), a[1..], b);
    }
  }

  /** Text without a percent sign prints as itself. */
  lemma {:induction false} PlainText(e: Env, p: PS, s: string)
    requires !p.inPct && '%' !in s
    ensures Formatted(e, p, s) == s && After(p, s) == p
  {
    if s != "" {
      PlainText(e, p, s[1..]);
    }
  }

  // ---------------------------------------------------------------- atoi

  predicate IsDigit(c: char) { '0' <= c <= '9' }

  /** The digits at the front of s appended to the number acc, without overflow. */
  function Parse(s: string, acc: nat): nat {
    if s == "" || !IsDigit(s[0]) then acc else Parse(s[1..], acc * 10 + DigitOf(s[0]))
  }

  function SkipSpace(s: string): string {
    if s != "" && (s[0] == ' ' || s[0] == '\t') then SkipSpace(s[1..]) else s
  }

  predicate Negative(s: string) { s != "" && s[0] == '-' }

  function SkipSign(s: string): string { if s != "" && (s[0] == '-' || s[0] == '+') then s[1..] else s }

  /** The int atoi returns: the parsed number in 32 bits, negated in 32 bits. */
  function Atoi(s: string): int {
    var t := SkipSpace(s);
    var v := Parse(SkipSign(t), 0) % W32;
    Signed(if Negative(t) then (W32 - v) % W32 else v)
  }

  function Pow10(k: nat): nat { if k == 0 then 1 else 10 * Pow10(k - 1) }

  // ---------------------------------------------------------------- reading back what was printed

  lemma DigitTen(d: nat)
    requires d < 10
    ensures IsDigit(Digit(d)) && DigitOf(Digit(d)) == d
  {
  }

  lemma ParseStep(c: char, rest: string, acc: nat)
    requires IsDigit(c)
    ensures Parse([c] + rest, acc) == Parse(rest, acc * 10 + DigitOf(c))
  {
    assert ([c] + rest)[0] == c && ([c] + rest)[1..] == rest;
  }

  lemma Shifted(acc: nat, x: nat, m: nat)
    ensures (acc * x + m / 10) * 10 + m % 10 == acc * (10 * x) + m
  {
    assert acc * (10 * x) == acc * x * 10;
  }

  lemma {:induction false} ParseDigits(m: nat, rest: string, acc: nat)
    ensures Parse(Digits(m, 10) + rest, acc) == Parse(rest, acc * Pow10(|Digits(m, 10)|) + m)
    decreases m
  {
    hide Parse, Digit, DigitOf;
    if m < 10 {
      DigitTen(m);
      ParseStep(Digit(m), rest, acc);
      assert Pow10(1) == 10 * Pow10(0);
    } else {
      var h, c := Digits(m / 10, 10), Digit(m % 10);
      DigitTen(m % 10);
      assert Digits(m, 10) + rest == h + ([c] + rest);
      ParseDigits(m / 10, [c] + rest, acc);
      ParseStep(c, rest, acc * Pow10(|h|) + m / 10);
      Shifted(acc, Pow10(|h|), m);
      assert |Digits(m, 10)| == |h| + 1;
    }
  }

  lemma FillStep(c: char, k: nat, rest: string)
    ensures Fill(c, k + 1) + rest == [c] + (Fill(c, k) + rest) && Fill(c, 0) + rest == rest
  {
  }

  lemma {:induction false} ParseZeros(k: nat, rest: string, acc: nat)
    ensures Parse(Fill('0', k) + rest, acc) == Parse(rest, acc * Pow10(k))
    decreases k
  {
    hide Parse, Fill;
    if k == 0 {
      FillStep('0', 0, rest);
    } else {
      FillStep('0', k - 1, rest);
      ParseStep('0', Fill('0', k - 1) + rest, acc);
      ParseZeros(k - 1, rest, acc * 10);
      assert acc * 10 * Pow10(k - 1) == acc * Pow10(k);
    }
  }

  lemma {:induction false} SkipSpaces(k: nat, t: string)
    ensures SkipSpace(Fill(' ', k) + t) == SkipSpace(t)
  {
    if k == 0 {
      assert Fill(' ', 0) + t == t;
    } else {
      var s := Fill(' ', k) + t;
      assert s[0] == ' ' && s[1..] == Fill(' ', k - 1) + t;
      SkipSpaces(k - 1, t);
    }
  }

  lemma {:induction false} DigitsHead(m: nat, rest: string)
    ensures |Digits(m, 10)| > 0 && IsDigit((Digits(m, 10) + rest)[0])
  {
    if m < 10 {
      DigitTen(m);
    } else {
      DigitsHead(m / 10, [Digit(m % 10)] + rest);
      assert Digits(m, 10) + rest == Digits(m / 10, 10) + ([Digit(m % 10)] + rest);
    }
  }

  /** Any text made of an optional minus sign and then digits is read as that number. */
  lemma AtoiText(neg: bool, t: string)
    requires t != "" && IsDigit(t[0])
    ensures var s := (if neg then "-" else "") + t; var v := Parse(t, 0) % W32;
      SkipSpace(s) == s && Atoi(s) == Signed(if neg then (W32 - v) % W32 else v)
  {
    var s := (if neg then "-" else "") + t;
    if neg {
      assert s[0] == '-' && s[1..] == t;
    } else {
      assert s == t;
    }
  }

  // 10^k - 1 is odd, so it has no common factor with 2^32

  function Pow2(j: nat): nat { if j == 0 then 1 else 2 * Pow2(j - 1) }

  lemma {:induction false} OddCancel(j: nat, a: nat, b: nat, q: nat) returns (r: nat)
    requires a * b == Pow2(j) * q && b % 2 == 1
    ensures a == Pow2(j) * r
  {
    if j == 0 {
      r := a;
    } else {
      EvenProduct(a, b, Pow2(j - 1) * q);
      var h := a / 2;
      assert 2 * (h * b) == 2 * (Pow2(j - 1) * q);
      var r' := OddCancel(j - 1, h, b, q);
      r := r';
    }
  }

  lemma EvenProduct(a: nat, b: nat, c: nat)
    requires a * b == 2 * c && b % 2 == 1
    ensures a % 2 == 0
  {
    var h := b / 2;
    assert a * b == a * (2 * h + 1) == 2 * (a * h) + a;
  }

  lemma {:induction false} Pow10Even(k: nat)
    requires k > 0
    ensures Pow10(k) % 2 == 0 && Pow10(k) >= 10
  {
    if k > 1 {
      Pow10Even(k - 1);
    }
    var x := Pow10(k - 1);
    assert Pow10(k) == 2 * (5 * x);
  }

  lemma Pow2Is32()
    ensures Pow2(32) == W32
  {
    assert Pow2(8) == 256;
    assert Pow2(16) == 65536;
    assert Pow2(24) == 0x100_0000;
  }

  lemma EvenMultiple(m: nat, x: nat, y: nat)
    requires m < W32 && x > 0 && x % 2 == 0 && y == m * x && y % W32 == m
    ensures m == 0
  {
    var q := y / W32;
    assert y == W32 * q + m;
    Pow2Is32();
    assert m * (x - 1) == m * x - m;
    var r := OddCancel(32, m, x - 1, q);
    assert m == W32 * r;
  }

  /** Trailing zeros change the 32-bit value of every number but zero. */
  lemma ShiftedDiffers(m: nat, k: nat)
    requires m < W32
    ensures m * Pow10(k) % W32 == m <==> m == 0 || k == 0
  {
    if k == 0 {
      assert m * 1 == m;
    } else {
      Pow10Even(k);
      hide Pow10;
      if m * Pow10(k) % W32 == m {
        EvenMultiple(m, Pow10(k), m * Pow10(k));
      }
    }
  }

  /** Which 32-bit value gives the printed number back. */
  lemma ValueBack(w: Word, v: Word)
    ensures Signed(if Signed(w) < 0 then (W32 - v) % W32 else v) == Signed(w) <==> v == Magnitude(w)
  {
  }

  /** The three layouts of a %d field and what atoi makes of them. */
  lemma RightPadded(w: Word, c: char, k: nat)
    requires c == ' ' || c == '0'
    ensures Atoi(SignPrefix('d', w) + (Digits(Magnitude(w), 10) + Fill(c, k))) == Signed(w) <==>
              !(c == '0' && k > 0 && w != 0)
  {
    hide Digits, Parse, Pow10, Atoi, Signed;
    var m, pad := Magnitude(w), Fill(c, k);
    DigitsHead(m, pad);
    AtoiText(Signed(w) < 0, Digits(m, 10) + pad);
    ParseDigits(m, pad, 0);
    PadParse(c, k, m);
    ShiftedDiffers(m, k);
    ValueBack(w, Parse(Digits(m, 10) + pad, 0) % W32);
    assert m == 0 <==> w == 0 by { ZeroMagnitude(w); }
  }

  lemma ZeroMagnitude(w: Word)
    ensures Magnitude(w) == 0 <==> w == 0
  {
  }

  lemma ZeroPadded(w: Word, k: nat)
    ensures Atoi(SignPrefix('d', w) + (Fill('0', k) + Digits(Magnitude(w), 10))) == Signed(w)
  {
    hide Digits, Parse, Pow10, Atoi, Signed;
    var m, pad := Magnitude(w), Fill('0', k);
    var d := Digits(m, 10);
    DigitsHead(m, "");
    assert d + "" == d;
    assert (pad + d)[0] == if k > 0 then '0' else d[0];
    AtoiText(Signed(w) < 0, pad + d);
    ParseZeros(k, d, 0);
    ParseDigits(m, "", 0);
    PadParse(' ', 0, m);
    ValueBack(w, m);
  }

  lemma SpacePadded(w: Word, k: nat)
    ensures Atoi(Fill(' ', k) + (SignPrefix('d', w) + Digits(Magnitude(w), 10))) == Signed(w)
  {
    hide Digits, Parse, Pow10, Atoi, Signed, SkipSpace;
    var s := SignPrefix('d', w) + Digits(Magnitude(w), 10);
    SkipSpaces(k, s);
    AtoiSkip(Fill(' ', k) + s, s);
    ZeroPadded(w, 0);
    assert Fill('0', 0) + Digits(Magnitude(w), 10) == Digits(Magnitude(w), 10);
  }

  /** atoi of a printed %d field, for every width, alignment and fill: the number comes back
      exactly unless zeros were padded on the right of a nonzero number. */
  lemma FieldRoundTrip(p: PS, w: Word)
    requires p.fill == ' ' || p.fill == '0'
    ensures Atoi(Number(p, 'd', w)) == Signed(w) <==>
      !(p.right && p.fill == '0' && p.spacing > |SignPrefix('d', w)| + |Digits(Magnitude(w), 10)| && w != 0)
  {
    hide Digits, Atoi, SignPrefix, Fill;
    var sign, d := SignPrefix('d', w), Digits(Magnitude(w), 10);
    var k := if p.spacing > |sign| + |d| then p.spacing - |sign| - |d| else 0;
    var pad := Fill(p.fill, k);
    assert sign + BasePrefix(p, 'd') == sign;
    RightPadded(w, p.fill, k);
    ZeroPadded(w, k);
    SpacePadded(w, k);
    assert sign + d + pad == sign + (d + pad);
    assert sign + pad + d == sign + (pad + d);
    assert pad + sign + d == pad + (sign + d);
  }

  lemma AtoiSkip(s: string, t: string)
    requires SkipSpace(s) == SkipSpace(t)
    ensures Atoi(s) == Atoi(t)
  {
  }

  lemma PadParse(c: char, k: nat, m: nat)
    requires c == ' ' || c == '0'
    ensures Parse(Fill(c, k), m) == if c == '0' then m * Pow10(k) else m
    ensures Parse("", m) == m
  {
    if c == '0' {
      ParseZeros(k, "", m);
      assert Fill('0', k) + "" == Fill('0', k);
    }
  }

  predicate AllModifiers(mods: string) { forall i :: 0 <= i < |mods| ==> mods[i] in MODIFIERS }

  /** The digits among the modifiers. */
  function DigitsIn(mods: string): string {
    if mods == "" then "" else (if IsDigit(mods[0]) then [mods[0]] else "") + DigitsIn(mods[1..])
  }

  /** The field width: the number the digits spell. */
  function Width(mods: string): nat { Parse(DigitsIn(mods), 0) }

  /** Zero fill: the first digit is 0. */
  predicate ZeroFill(mods: string) { DigitsIn(mods) != "" && DigitsIn(mods)[0] == '0' }

  /** A field about to read mods will be filled with zeros. */
  predicate WillZero(p: PS, mods: string) { p.fill == '0' || (p.spacing == 0 && ZeroFill(mods)) }

  lemma ModifierStep(e: Env, p: PS, c: char)
    requires p.inPct && c in MODIFIERS && (p.fill == ' ' || p.fill == '0')
    ensures Emitted(e, p, c) == "" && Next(p, c).inPct && Next(p, c).next == p.next
    ensures Next(p, c).fill == ' ' || Next(p, c).fill == '0'
    ensures Next(p, c).right <==> p.right || c == '-'
    ensures Next(p, c).alt <==> p.alt || c == '#'
    ensures Next(p, c).spacing == if IsDigit(c) then p.spacing * 10 + DigitOf(c) else p.spacing
    ensures Next(p, c).fill == '0' <==> p.fill == '0' || (c == '0' && p.spacing == 0)
  {
  }

  lemma LayoutStep(p: PS, c: char, rest: string, q: PS)
    requires q.spacing == if IsDigit(c) then p.spacing * 10 + DigitOf(c) else p.spacing
    requires q.fill == '0' <==> p.fill == '0' || (c == '0' && p.spacing == 0)
    ensures Parse(DigitsIn([c] + rest), p.spacing) == Parse(DigitsIn(rest), q.spacing)
    ensures WillZero(p, [c] + rest) <==> WillZero(q, rest)
  {
    assert ([c] + rest)[1..] == rest;
    var d := DigitsIn(rest);
    if IsDigit(c) {
      assert DigitsIn([c] + rest) == [c] + d;
      ParseStep(c, d, p.spacing);
    } else {
      assert DigitsIn([c] + rest) == d;
    }
  }

  /** Modifiers print nothing and only set the field's layout: left alignment by any minus sign,
      the width by the number their digits spell, zero fill by a leading 0 of it. */
  lemma {:induction false} ModifiersQuiet(e: Env, p: PS, mods: string)
    requires p.inPct && AllModifiers(mods) && (p.fill == ' ' || p.fill == '0')
    ensures Formatted(e, p, mods) == "" && After(p, mods).inPct && After(p, mods).next == p.next
    ensures After(p, mods).fill == ' ' || After(p, mods).fill == '0'
    ensures After(p, mods).right <==> p.right || '-' in mods
    ensures After(p, mods).alt <==> p.alt || '#' in mods
    ensures After(p, mods).spacing == Parse(DigitsIn(mods), p.spacing)
    ensures After(p, mods).fill == '0' <==> WillZero(p, mods)
    decreases |mods|
  {
    hide Next, Emitted, Parse, WillZero;
    if mods != "" {
      var q := Next(p, mods[0]);
      ModifierStep(e, p, mods[0]);
      ModifiersQuiet(e, q, mods[1..]);
      LayoutStep(p, mods[0], mods[1..], q);
      assert mods == [mods[0]] + mods[1..];
    } else {
      NoDigits(p);
    }
  }

  lemma NoDigits(p: PS)
    ensures Parse(DigitsIn(""), p.spacing) == p.spacing && (WillZero(p, "") <==> p.fill == '0')
  {
  }

  lemma OneChar(e: Env, p: PS, c: char)
    ensures Formatted(e, p, [c]) == Emitted(e, p, c) && After(p, [c]) == Next(p, c)
  {
    hide Next, Emitted;
    assert [c][1..] == [];
    assert Emitted(e, p, c) + "" == Emitted(e, p, c);
  }

  /** For every string of modifiers, what atoi reads from the output of %...d. The only layout
      that loses the number is zero fill combined with left alignment in a wider field. */
  lemma PrintParse(e: Env, mods: string)
    requires AllModifiers(mods)
    ensures var w := e.arg(0);
      Atoi(Formatted(e, START, "%" + mods + "d")) == Signed(w) <==>
      !('-' in mods && ZeroFill(mods) && Width(mods) > |SignPrefix('d', w)| + |Digits(Magnitude(w), 10)| && w != 0)
  {
    hide Atoi, Digits, Number, SignPrefix, Modified, Formatted, After, Signed;
    var p := After(START.(inPct := true), mods);
    FieldText(e, 0, mods, 'd');
    ModifiersQuiet(e, START.(inPct := true), mods);
    FieldRoundTrip(p, e.arg(0));
  }

  /** The state between two conversions, with n arguments taken. */
  function Between(n: nat): PS { START.(next := n) }

  /** The output of one conversion is its field, and integers, strings and characters take an
      argument. */
  lemma FieldText(e: Env, n: nat, mods: string, c: char)
    requires AllModifiers(mods) && c !in MODIFIERS
    ensures var p := After(Between(n).(inPct := true), mods);
            p.next == n && Formatted(e, Between(n), "%" + mods + [c]) == Field(e, p, c)
    ensures After(Between(n), "%" + mods + [c]) == Between(if c in "doupxsc" then n + 1 else n)
  {
    hide Field, Modified, Formatted, After;
    var q, p := Between(n).(inPct := true), After(Between(n), "%" + mods);
    OneChar(e, Between(n), '%');
    FormattedConcat(e, Between(n), "%", mods);
    ModifiersQuiet(e, q, mods);
    FormattedConcat(e, Between(n), "%" + mods, [c]);
    OneChar(e, p, c);
    assert Formatted(e, Between(n), "%" + mods + [c]) == "" + "" + Field(e, p, c) == Field(e, p, c);
  }

  /** Such a format: the number 7 printed with %-03d reads back as 700. */
  lemma TrailingZeros(e: Env)
    requires e.arg(0) == 7
    ensures Formatted(e, START, "%-03d") == "700" && Atoi(Formatted(e, START, "%-03d")) == 700
  {
    hide Atoi, Formatted, After, Modified, Number;
    var mods, q := "-03", START.(inPct := true);
    assert "%" + mods + "d" == "%-03d";
    FieldText(e, 0, mods, 'd');
    ModifiersQuiet(e, q, mods);
    Layout03();
    SevenLeft(After(q, mods));
  }

  lemma Layout03()
    ensures DigitsIn("-03") == "03" && Parse(DigitsIn("-03"), 0) == 3 && ZeroFill("-03")
  {
    assert "-03"[1..] == "03" && "03"[1..] == "3" && "3"[1..] == "";
    assert DigitsIn("3") == "3" && DigitsIn("03") == "03";
    assert Parse("3", 0) == Parse("", 3) == 3;
  }

  lemma SevenLeft(p: PS)
    requires p.right && p.fill == '0' && p.spacing == 3
    ensures Number(p, 'd', 7) == "700" && Atoi("700") == 700
  {
    assert Digits(7, 10) == [Digit(7)];
    assert Fill('0', 2) == "00";
    var s := "700";
    assert s[1..] == "00" && s[1..][1..] == "0" && s[1..][1..][1..] == "";
    assert Parse("", 700) == 700 && Parse("0", 70) == 700 && Parse("00", 7) == 700 && Parse(s, 0) == 700;
  }
}
