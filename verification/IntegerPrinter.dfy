/**
 Integers printed by _doprnt and read back by atol, in libxc: unsigned division
 done with signed operations, padding, and the round trip.
 */
module IntegerPrinter {
  import opened Arithmetic
  import opened Word

  const MAXDIGS: nat := 11
  const HIBIT: int := -0x8000_0000

  // ---- Numerals ----------------------------------------------------------

  datatype Case = Lower | Upper

  function DigitChar(d: nat, c: Case): char
    requires d < 16
  {
    (if c.Upper? then "0123456789ABCDEF" else "0123456789abcdef")[d]
  }

  /** Digits of a number, most significant first; none for zero. */
  function Numeral(u: nat, radix: nat, c: Case): string
    requires 2 <= radix <= 16
  {
    if u == 0 then "" else Numeral(u / radix, radix, c) + [DigitChar(u % radix, c)]
  }

  predicate IsDigit(ch: char) {
    '0' <= ch <= '9'
  }

  function DigitValue(ch: char): int {
    ch as int - '0' as int
  }

  /** The number a string of decimal digits stands for. */
  function Decimal(s: string): int {
    if s == "" then 0 else 10 * Decimal(s[..|s| - 1]) + DigitValue(s[|s| - 1])
  }

  lemma {:induction false} NumeralDecimal(u: nat, c: Case)
    ensures Decimal(Numeral(u, 10, c)) == u
    ensures forall i :: 0 <= i < |Numeral(u, 10, c)| ==> IsDigit(Numeral(u, 10, c)[i])
  {
    if u > 0 {
      NumeralDecimal(u / 10, c);
      var s := Numeral(u, 10, c);
      assert s[..|s| - 1] == Numeral(u / 10, 10, c);
      assert IsDigit(DigitChar(u % 10, c)) && DigitValue(DigitChar(u % 10, c)) == u % 10;
    }
  }

  function DigitIn(ch: char): int {
    if IsDigit(ch) then ch as int - '0' as int
    else if 'a' <= ch <= 'f' then ch as int - 'a' as int + 10
    else ch as int - 'A' as int + 10
  }

  /** The number a string of digits stands for in a radix. */
  function InRadix(s: string, radix: nat): int {
    if s == "" then 0 else radix * InRadix(s[..|s| - 1], radix) + DigitIn(s[|s| - 1])
  }

  lemma LastDigit(u: nat, radix: nat, c: Case) returns (q: nat, d: nat)
    requires u > 0 && 2 <= radix <= 16
    ensures d < radix && q < u && u == radix * q + d && Numeral(u, radix, c) == Numeral(q, radix, c) + [DigitChar(d, c)]
  {
    q, d := u / radix, u % radix;
  }

  /** The digits stand for the number, in every radix and case. */
  lemma {:induction false} NumeralMeans(u: nat, radix: nat, c: Case)
    requires 2 <= radix <= 16
    ensures InRadix(Numeral(u, radix, c), radix) == u
  {
    if u > 0 {
      var q, d := LastDigit(u, radix, c);
      NumeralMeans(q, radix, c);
      DigitBack(d, c);
      InRadixSnoc(Numeral(q, radix, c), DigitChar(d, c), radix);
    }
  }

  lemma InRadixSnoc(s: string, ch: char, radix: nat)
    ensures InRadix(s + [ch], radix) == radix * InRadix(s, radix) + DigitIn(ch)
  {
    assert (s + [ch])[..|s|] == s;
  }

  lemma DigitBack(d: nat, c: Case)
    requires d < 16
    ensures DigitIn(DigitChar(d, c)) == d
  {
  }

  /** A number below the k-th power of the radix has at most k digits. */
  lemma {:induction false} FewDigits(u: nat, radix: nat, c: Case, k: nat)
    requires 2 <= radix <= 16 && u < Power(radix, k)
    ensures |Numeral(u, radix, c)| <= k
    decreases k
  {
    if u > 0 && k > 0 {
      Lowered(u, radix, Power(radix, k - 1));
      FewDigits(u / radix, radix, c, k - 1);
    }
  }

  lemma Lowered(u: nat, r: nat, p: nat)
    requires 0 < r && u < r * p
    ensures u / r < p
  {
    if u / r >= p {
      Mono(r, p, u / r);
    }
  }

  /** Eleven digits are enough for every 32-bit number in every radix. */
  lemma ElevenDigits(u: nat, radix: nat, c: Case)
    requires (radix == 8 || radix == 10 || radix == 16) && u < TWO32
    ensures |Numeral(u, radix, c)| <= MAXDIGS
  {
    assert Power(8, 11) == 8589934592;
    assert Power(10, 11) == 100000000000;
    assert Power(16, 11) == 17592186044416;
    FewDigits(u, radix, c, MAXDIGS);
  }

  // ---- The half-radix loop -----------------------------------------------

  /** val >> 1 with the sign bit cleared. */
  function LogicalHalf(v: int): int {
    v / 2 % TWO31
  }

  /** The shift with the sign bit cleared halves the unsigned number. */
  lemma HalvesUnsigned(v: int)
    requires Is32(v)
    ensures LogicalHalf(v) == Unsigned32(v) / 2 && v % 2 == Unsigned32(v) % 2
  {
    if v < 0 {
      assert Unsigned32(v) == v + TWO32;
      assert (v + TWO32) / 2 == v / 2 + TWO31;
    }
  }

  /** One digit by half the radix: quotient and remainder by the whole. */
  lemma HalfRadix(u: nat, h: nat)
    requires h > 0
    ensures u / 2 % h * 2 + u % 2 == u % (2 * h) && u / 2 / h == u / (2 * h)
  {
    ModSplit(u, 2, h);
    DivideTwice(u, 2, h);
  }

  lemma SmallQuotient(u: nat, r: nat)
    requires u > 0 && r >= 2
    ensures 0 <= u / r < u && u / r <= u / 2
  {
    Mono(u / r, 2, r);
    assert r * (u / r) <= u;
  }

  /** Where the word's sign bit is clear, signed and unsigned agree. */
  lemma NextDigitFacts(val: int, h: nat)
    requires Is32(val) && val != 0 && 0 < h <= 8
    ensures var half := LogicalHalf(val);
      && half % h * 2 + val % 2 == Unsigned32(val) % (2 * h)
      && 0 <= half / h == Unsigned32(val) / (2 * h) < TWO31
      && half / h < Unsigned32(val)
  {
    var u := Unsigned32(val);
    assert u > 0;
    HalvesUnsigned(val);
    HalfRadix(u, h);
    SmallQuotient(u, 2 * h);
  }

  /** The next digit and what is left, by signed division. */
  method NextDigit(val: int, hradix: nat, c: Case) returns (digit: char, rest: int)
    requires Is32(val) && val != 0 && (hradix == 4 || hradix == 5 || hradix == 8)
    ensures Is32(rest) && 0 <= Unsigned32(rest) < Unsigned32(val)
    ensures Numeral(Unsigned32(val), 2 * hradix, c) == Numeral(Unsigned32(rest), 2 * hradix, c) + [digit]
  {
    NextDigitFacts(val, hradix);
    var lowbit := val % 2;
    var half := LogicalHalf(val);
    digit := DigitChar(half % hradix * 2 + lowbit, c);
    rest := half / hradix;
    assert Unsigned32(rest) == rest;
  }

  /** Develops the digits backwards into the buffer and returns where they start. */
  method Develop(val: int, hradix: nat, c: Case) returns (buf: array<char>, bp: nat)
    requires Is32(val) && (hradix == 4 || hradix == 5 || hradix == 8)
    ensures buf.Length == MAXDIGS && bp <= MAXDIGS && fresh(buf)
    ensures buf[bp..] == Numeral(Unsigned32(val), 2 * hradix, c)
  {
    buf := new char[MAXDIGS];
    bp := MAXDIGS;
    var v := val;
    ghost var todo := Numeral(Unsigned32(val), 2 * hradix, c);
    ghost var all := todo;
    ElevenDigits(Unsigned32(val), 2 * hradix, c);
    while v != 0
      invariant bp <= MAXDIGS && Is32(v) && todo == Numeral(Unsigned32(v), 2 * hradix, c)
      invariant todo + buf[bp..] == all && |all| <= MAXDIGS
      decreases Unsigned32(v)
    {
      var digit, rest := NextDigit(v, hradix, c);
      ghost var tail := buf[bp..];
      assert |todo| > 0;
      bp := bp - 1;
      buf[bp] := digit;
      v := rest;
      todo := Numeral(Unsigned32(v), 2 * hradix, c);
      Moved(todo, digit, tail);
      assert buf[bp..] == [digit] + tail;
    }
    assert todo == "";
  }

  lemma Moved(s: string, digit: char, tail: string)
    ensures s + ([digit] + tail) == (s + [digit]) + tail
  {
  }

  // ---- Formatting --------------------------------------------------------

  datatype Flags = Flags(plus: bool, minus: bool, blank: bool, sharp: bool, zero: bool)

  datatype Conv = Signed | Unsigned | Octal | Hex(c: Case)

  /** A specification; a width or precision given by an argument may be negative, a missing precision is -1. */
  datatype Spec = Spec(flags: Flags, width: int, prec: int, conv: Conv)

  function Repeat(ch: char, n: int): string {
    seq(if n > 0 then n else 0, _ => ch)
  }

  function AtLeast(x: int, y: int): int {
    if x < y then y else x
  }

  function HalfRadixOf(conv: Conv): (h: nat)
    ensures h == 4 || h == 5 || h == 8
  {
    match conv
    case Octal => 4
    case Hex(_) => 8
    case _ => 5
  }

  function CaseOf(conv: Conv): Case {
    if conv.Hex? then conv.c else Lower
  }

  function Sign(s: Spec, val: int): string {
    if !s.conv.Signed? then ""
    else if val < 0 then "-"
    else if s.flags.plus then "+"
    else if s.flags.blank then " "
    else ""
  }

  /** The word whose unsigned digits are printed; the least number is its own magnitude. */
  function Magnitude(s: Spec, val: int): int {
    if s.conv.Signed? && val < 0 && val != HIBIT then -val else val
  }

  function DigitsOf(s: Spec, val: int): string {
    Numeral(Unsigned32(Magnitude(s, val)), 2 * HalfRadixOf(s.conv), CaseOf(s.conv))
  }

  function WidthOf(s: Spec): nat {
    if s.width < 0 then -s.width else s.width
  }

  predicate LeftAdjusted(s: Spec) {
    s.flags.minus || s.width < 0
  }

  /** Digits wanted, which the zero flag raises to fill the field behind the sign. */
  function Wanted(s: Spec, val: int): int {
    var prec := if s.prec < 0 then 1 else s.prec;
    if s.flags.zero then AtLeast(prec, WidthOf(s) - |Sign(s, val)|) else prec
  }

  function Zeros(s: Spec, val: int): int {
    var lzero := Wanted(s, val) - |DigitsOf(s, val)|;
    if s.flags.sharp && DigitsOf(s, val) != "" && s.conv.Octal? then AtLeast(lzero, 1) else lzero
  }

  function Prefix(s: Spec, val: int): string {
    if s.flags.sharp && DigitsOf(s, val) != "" && s.conv.Hex? then (if s.conv.c.Upper? then "0X" else "0x")
    else Sign(s, val)
  }

  function Body(s: Spec, val: int): string {
    Prefix(s, val) + (Repeat('0', Zeros(s, val)) + DigitsOf(s, val))
  }

  function Formatted(s: Spec, val: int): string {
    var blanks := Repeat(' ', WidthOf(s) - |Body(s, val)|);
    if LeftAdjusted(s) then Body(s, val) + blanks else blanks + Body(s, val)
  }

  /** The field is as wide as asked for, or as wide as its contents. */
  lemma FieldWidth(s: Spec, val: int)
    ensures |Formatted(s, val)| == AtLeast(WidthOf(s), |Body(s, val)|)
  {
  }

  /** Characters that the sharp flag adds without room reserved for them. */
  function SharpExtra(s: Spec, val: int): nat {
    if !s.flags.sharp || DigitsOf(s, val) == "" then 0
    else if s.conv.Hex? then 2
    else if s.conv.Octal? && |DigitsOf(s, val)| == WidthOf(s) then 1
    else 0
  }

  /**
   Where the zero flag decides and the digits fit, it fills the field to the width and
   leaves no blanks; the field is wider exactly by what the sharp flag adds.
   */
  lemma ZeroFlagFills(s: Spec, val: int)
    requires s.flags.zero && s.prec < WidthOf(s) - |Sign(s, val)| && |Sign(s, val)| < WidthOf(s)
    requires |DigitsOf(s, val)| <= WidthOf(s) - |Sign(s, val)|
    ensures Formatted(s, val) == Body(s, val) && |Body(s, val)| == WidthOf(s) + SharpExtra(s, val)
  {
    assert Repeat(' ', 0) == "";
  }

  /** One conversion, character by character. */
  method Print(s: Spec, val: int) returns (out: string)
    requires Is32(val)
    ensures out == Formatted(s, val)
  {
    var width, fminus := s.width, s.flags.minus;
    if width < 0 {
      width, fminus := -width, true;
    }
    var prefix, v := TakeSign(s, val);
    var prec := if s.prec < 0 then 1 else s.prec;
    if s.flags.zero {
      var n := width - |prefix|;
      if n > prec {
        prec := n;
      }
    }
    var buf, bp := Develop(v, HalfRadixOf(s.conv), CaseOf(s.conv));
    var lzero;
    lzero, prefix := SharpFlag(s, val, prec - |buf[bp..]|, prefix, buf[bp..]);
    out := Emit(width, fminus, lzero, prefix, buf[bp..]);
  }

  /** The sign, and the value without it. */
  method TakeSign(s: Spec, val: int) returns (prefix: string, v: int)
    requires Is32(val)
    ensures prefix == Sign(s, val) && v == Magnitude(s, val) && Is32(v)
  {
    prefix, v := "", val;
    if s.conv.Signed? {
      if v < 0 {
        prefix := "-";
        if v != HIBIT {
          v := -v;
        }
      } else if s.flags.plus {
        prefix := "+";
      } else if s.flags.blank {
        prefix := " ";
      }
    }
  }

  /** The sharp flag: a leading zero for octal, a radix prefix for hexadecimal, unless the value is zero. */
  method SharpFlag(s: Spec, ghost val: int, lz: int, pre: string, digits: string) returns (lzero: int, prefix: string)
    requires digits == DigitsOf(s, val) && lz == Wanted(s, val) - |digits| && pre == Sign(s, val)
    ensures lzero == Zeros(s, val) && prefix == Prefix(s, val)
  {
    lzero, prefix := lz, pre;
    if s.flags.sharp && digits != "" {
      match s.conv {
        case Octal => if lzero < 1 { lzero := 1; }
        case Hex(c) => prefix := if c.Upper? then "0X" else "0x";
        case _ =>
      }
    }
  }

  /** Blanks on the left, prefix, zeros, digits, blanks on the right. */
  method Emit(width: int, fminus: bool, lzero: int, prefix: string, digits: string) returns (out: string)
    ensures var body := prefix + (Repeat('0', lzero) + digits);
      out == if fminus then body + Repeat(' ', width - |body|) else Repeat(' ', width - |body|) + body
  {
    var nblank := width - |digits| - (if lzero < 0 then 0 else lzero) - |prefix|;
    out := "";
    if !fminus {
      out := Repeated(' ', nblank);
    }
    var zeros := Repeated('0', lzero);
    out := out + (prefix + (zeros + digits));
    if fminus {
      var blanks := Repeated(' ', nblank);
      out := out + blanks;
    }
    assert "" + (prefix + (zeros + digits)) == prefix + (zeros + digits);
  }

  /** The padding loops. */
  method Repeated(ch: char, n: int) returns (s: string)
    ensures s == Repeat(ch, n)
  {
    var k := n - 1;
    s := "";
    while k >= 0
      invariant -1 <= k < n || (n <= 0 && k == n - 1)
      invariant s == Repeat(ch, if n > 0 then n - 1 - k else 0)
    {
      s := s + [ch];
      k := k - 1;
    }
  }

  // ---- atol --------------------------------------------------------------

  predicate IsBlank(ch: char) {
    ch == ' ' || ch == '\t'
  }

  function SkipBlanks(s: string): string {
    if s != "" && IsBlank(s[0]) then SkipBlanks(s[1..]) else s
  }

  /** The run of digits at the front, on top of a number read so far. */
  function Digits(s: string, n: int): int {
    if s != "" && IsDigit(s[0]) then Digits(s[1..], 10 * n + DigitValue(s[0])) else n
  }

  predicate Signs(s: string) {
    s != "" && (s[0] == '-' || s[0] == '+')
  }

  function AtolOf(s: string): int {
    var t := SkipBlanks(s);
    var n := Wrap32(Digits(if Signs(t) then t[1..] else t, 0));
    if t != "" && t[0] == '-' then Wrap32(-n) else n
  }

  /** Wrapping around while reading digits changes nothing in the end. */
  lemma {:induction false} DigitsWrap(s: string, n: int)
    ensures Wrap32(Digits(s, Wrap32(n))) == Wrap32(Digits(s, n))
  {
    if s != "" && IsDigit(s[0]) {
      var d := DigitValue(s[0]);
      WrapMul(n, 10);
      WrapAdd(10 * Wrap32(n), d);
      WrapAdd(10 * n, d);
      DigitsWrap(s[1..], 10 * Wrap32(n) + d);
      DigitsWrap(s[1..], 10 * n + d);
    }
  }

  lemma Onward(s: string, p: nat)
    requires p < |s|
    ensures s[p..] != [] && s[p..][0] == s[p] && s[p..][1..] == s[p + 1..]
  {
  }

  method Atol(s: string) returns (r: int)
    ensures r == AtolOf(s)
  {
    var p, f, n := 0, 0, 0;
    while p < |s| && IsBlank(s[p])
      invariant 0 <= p <= |s| && SkipBlanks(s[p..]) == SkipBlanks(s)
    {
      Onward(s, p);
      p := p + 1;
    }
    ghost var t := SkipBlanks(s);
    assert t == s[p..];
    if p < |s| && s[p] == '-' {
      f := f + 1;
      p := p + 1;
    } else if p < |s| && s[p] == '+' {
      p := p + 1;
    }
    ghost var u := s[p..];
    assert u == if Signs(t) then t[1..] else t;
    while p < |s| && IsDigit(s[p])
      invariant 0 <= p <= |s| && Is32(n) && Wrap32(Digits(s[p..], n)) == Wrap32(Digits(u, 0))
    {
      Onward(s, p);
      DigitsWrap(s[p + 1..], 10 * n + DigitValue(s[p]));
      n := Wrap32(10 * n + DigitValue(s[p]));
      p := p + 1;
    }
    r := if f != 0 then Wrap32(-n) else n;
  }

  // ---- The round trip ----------------------------------------------------

  lemma {:induction false} SkipOver(k: nat, s: string)
    ensures SkipBlanks(Repeat(' ', k) + s) == SkipBlanks(s)
  {
    if k == 0 {
      assert Repeat(' ', 0) + s == s;
    } else {
      assert (Repeat(' ', k) + s)[1..] == Repeat(' ', k - 1) + s;
      SkipOver(k - 1, s);
    }
  }

  predicate AllDigits(s: string) {
    forall i :: 0 <= i < |s| ==> IsDigit(s[i])
  }

  predicate NoDigitFirst(s: string) {
    s == "" || !IsDigit(s[0])
  }

  /** Digits read onto a number, from the last one. */
  function Onto(n: int, s: string): int {
    if s == "" then n else 10 * Onto(n, s[..|s| - 1]) + DigitValue(s[|s| - 1])
  }

  lemma {:induction false} OntoFront(n: int, s: string)
    requires s != ""
    ensures Onto(n, s) == Onto(10 * n + DigitValue(s[0]), s[1..])
  {
    if |s| > 1 {
      OntoFront(n, s[..|s| - 1]);
      assert s[..|s| - 1][1..] == s[1..][..|s| - 2];
    }
  }

  lemma {:induction false} OntoAppend(n: int, a: string, b: string)
    ensures Onto(n, a + b) == Onto(Onto(n, a), b)
  {
    if b == "" {
      assert a + b == a;
    } else {
      assert (a + b)[..|a + b| - 1] == a + b[..|b| - 1];
      OntoAppend(n, a, b[..|b| - 1]);
    }
  }

  lemma {:induction false} ReadsAll(w: string, rest: string, n: int)
    requires AllDigits(w) && NoDigitFirst(rest)
    ensures Digits(w + rest, n) == Onto(n, w)
  {
    if w == "" {
      assert w + rest == rest;
    } else {
      assert (w + rest)[1..] == w[1..] + rest;
      OntoFront(n, w);
      ReadsAll(w[1..], rest, 10 * n + DigitValue(w[0]));
    }
  }

  lemma {:induction false} ZerosCountNothing(k: nat)
    ensures Onto(0, Repeat('0', k)) == 0
  {
    if k > 0 {
      assert Repeat('0', k)[..k - 1] == Repeat('0', k - 1);
      ZerosCountNothing(k - 1);
    }
  }

  lemma {:induction false} OntoZero(s: string)
    ensures Onto(0, s) == Decimal(s)
  {
    if s != "" {
      OntoZero(s[..|s| - 1]);
    }
  }

  /** The padded digits read as the number itself. */
  lemma PaddedDigits(s: Spec, val: int, rest: string)
    requires s.conv.Signed? && NoDigitFirst(rest)
    ensures var w := Repeat('0', Zeros(s, val)) + DigitsOf(s, val);
      AllDigits(w) && Digits(w + rest, 0) == Unsigned32(Magnitude(s, val))
  {
    var z, d := Repeat('0', Zeros(s, val)), DigitsOf(s, val);
    NumeralDecimal(Unsigned32(Magnitude(s, val)), CaseOf(s.conv));
    ReadsAll(z + d, rest, 0);
    OntoAppend(0, z, d);
    ZerosCountNothing(|z|);
    assert z == Repeat('0', |z|);
    OntoZero(d);
  }

  /** Blanks before and after, and an optional sign. */
  lemma SignedText(k: nat, prefix: string, w: string, m: nat)
    requires AllDigits(w) && (prefix == "" || prefix == "-" || prefix == "+" || prefix == " ")
    ensures var rest := Repeat(' ', m); var n := Wrap32(Digits(w + rest, 0));
      AtolOf(Repeat(' ', k) + (prefix + (w + rest))) == if prefix == "-" then Wrap32(-n) else n
  {
    var rest := Repeat(' ', m);
    SkipOver(k, prefix + (w + rest));
    if prefix == "-" || prefix == "+" {
      assert (prefix + (w + rest))[1..] == w + rest;
    } else {
      if prefix == " " {
        assert prefix + (w + rest) == Repeat(' ', 1) + (w + rest);
        SkipOver(1, w + rest);
      } else {
        assert prefix + (w + rest) == w + rest;
      }
      if w == "" {
        assert w + rest == rest == Repeat(' ', m) + "";
        SkipOver(m, "");
      }
    }
  }

  /** What a signed conversion looks like. */
  lemma SignedShape(s: Spec, val: int) returns (k: nat, m: nat)
    requires s.conv.Signed?
    ensures var w := Repeat('0', Zeros(s, val)) + DigitsOf(s, val);
      Formatted(s, val) == Repeat(' ', k) + (Sign(s, val) + (w + Repeat(' ', m)))
  {
    var w := Repeat('0', Zeros(s, val)) + DigitsOf(s, val);
    var n := WidthOf(s) - |Body(s, val)|;
    var pad := if n > 0 then n else 0;
    if LeftAdjusted(s) {
      k, m := 0, pad;
      assert Repeat(' ', 0) == "";
    } else {
      k, m := pad, 0;
      assert w + Repeat(' ', 0) == w;
    }
    assert Repeat(' ', n) == Repeat(' ', pad);
  }

  /** The unsigned magnitude read as a word, with the sign put back. */
  lemma SignApplied(s: Spec, val: int)
    requires s.conv.Signed? && Is32(val)
    ensures var n := Wrap32(Unsigned32(Magnitude(s, val)));
      val == if Sign(s, val) == "-" then Wrap32(-n) else n
    ensures Sign(s, val) == "-" <==> val < 0
  {
    SameWord(Unsigned32(Magnitude(s, val)), Magnitude(s, val), if Magnitude(s, val) < 0 then 1 else 0);
  }

  /**
   Whatever the flags, width and precision, atol reads a printed signed number back,
   the least one included.
   */
  lemma RoundTrip(s: Spec, val: int)
    requires s.conv.Signed? && Is32(val)
    ensures AtolOf(Formatted(s, val)) == val
  {
    var k, m := SignedShape(s, val);
    var w := Repeat('0', Zeros(s, val)) + DigitsOf(s, val);
    PaddedDigits(s, val, Repeat(' ', m));
    SignedText(k, Sign(s, val), w, m);
    SignApplied(s, val);
  }
}
