/** Printing and parsing numbers: printnum and the numeric conversions of vprintfmt
    (lib/printfmt.c), and strtol (lib/string.c). */
module Numbers {
  import opened EnvTable

  /** The character for a digit, and its value again. */
  function DigitChar(d: nat): (c: char)
    requires d < 16
  {
    "0123456789abcdef"[d]
  }

  /** strtol's reading of a character; None for a character that is no digit. */
  function DigitOf(c: char): (d: int)
    ensures -1 <= d < 36
  {
    if '0' <= c <= '9' then c as int - '0' as int
    else if 'a' <= c <= 'z' then c as int - 'a' as int + 10
    else if 'A' <= c <= 'Z' then c as int - 'A' as int + 10
    else -1
  }

  lemma DigitRoundTrip(d: nat)
    requires d < 16
    ensures DigitOf(DigitChar(d)) == d && DigitChar(d) !in [' ', '\t', '+', '-', 'x', '\0']
  {
  }

  // ---- Printing ------------------------------------------------------------------------------------

  function Digits(num: nat, base: nat): (s: seq<char>)
    requires 2 <= base <= 16
    ensures |s| > 0
    decreases num
  {
    (if num >= base then Digits(num / base, base) else []) + [DigitChar(num % base)]
  }

  function Repeat(c: char, n: int): (s: seq<char>)
    ensures |s| == if n > 0 then n else 0
    ensures forall i :: 0 <= i < |s| ==> s[i] == c
    decreases if n > 0 then n else 0
  {
    if n <= 0 then [] else [c] + Repeat(c, n - 1)
  }

  /** The field printnum is to fill: the digits, padded on the left to the width. */
  function Field(num: nat, base: nat, width: int, padc: char): seq<char>
    requires 2 <= base <= 16
  {
    Repeat(padc, width - |Digits(num, base)|) + Digits(num, base)
  }

  function BaseOf(conv: char): (b: nat)
    ensures 2 <= b <= 16
  {
    match conv case 'd' => 10 case 'u' => 10 case 'o' => 8 case _ => 16
  }

  /** getint: the argument as int or long, or as long long after two or more `l` flags. */
  function GetInt(arg: int, lflag: nat): int {
    if lflag >= 2 then (arg + 0x8000_0000_0000_0000) % 0x1_0000_0000_0000_0000 - 0x8000_0000_0000_0000
    else Int32(arg)
  }

  /** getuint. */
  function GetUint(arg: int, lflag: nat): nat {
    if lflag >= 2 then arg % 0x1_0000_0000_0000_0000 else arg % 0x1_0000_0000
  }

  function Prefix(conv: char, arg: int, lflag: nat): seq<char> {
    if conv == 'd' && GetInt(arg, lflag) < 0 then "-" else if conv == 'p' then "0x" else ""
  }

  function Abs(x: int): nat {
    if x < 0 then -x else x
  }

  /** The argument's absolute value for %d, its unsigned reading otherwise; a pointer has 32 bits. */
  function Magnitude(conv: char, arg: int, lflag: nat): nat {
    if conv == 'd' then Abs(GetInt(arg, lflag)) else GetUint(arg, if conv == 'p' then 0 else lflag)
  }

  /** What the conversions d, u, o, x and p are to print. */
  function Converted(conv: char, arg: int, lflag: nat, width: int, padc: char): seq<char> {
    Prefix(conv, arg, lflag) + Field(Magnitude(conv, arg, lflag), BaseOf(conv), width, padc)
  }

  lemma Shrinks(num: nat, base: nat)
    requires 2 <= base <= num
    ensures num / base < num
  {
    var q := num / base;
    DivMod(num, base);
    assert q * base == q * 2 + q * (base - 2);
    assert q * (base - 2) >= 0;
  }

  class Console {
    var out: seq<char>

    constructor ()
      ensures out == []
    {
      out := [];
    }

    method Putch(c: char)
      modifies this
      ensures out == old(out) + [c]
    {
      out := out + [c];
    }

    /** "while (--width > 0) putch(padc)". */
    method Pad(width: int, padc: char)
      modifies this
      ensures out == old(out) + Repeat(padc, width - 1)
    {
      var w := width - 1;
      while w > 0
        invariant out + Repeat(padc, w) == old(out) + Repeat(padc, width - 1)
        decreases w
      {
        assert Repeat(padc, w) == [padc] + Repeat(padc, w - 1);
        Putch(padc);
        w := w - 1;
      }
    }

    /** The recursion hands the padding down to the leading digit. */
    method PrintNum(num: nat, base: nat, width: int, padc: char)
      requires 2 <= base <= 16
      modifies this
      ensures out == old(out) + Field(num, base, width, padc)
      decreases num
    {
      if num >= base {
        Shrinks(num, base);
        PrintNum(num / base, base, width - 1, padc);
      } else {
        Pad(width, padc);
      }
      Putch("0123456789abcdef"[num % base]);
    }

    /** The part of a conversion before the label `number`; num is an unsigned long long. */
    method Begin(conv: char, arg: int, lflag: nat) returns (num: nat, base: nat)
      requires conv in ['d', 'u', 'o', 'x', 'p']
      modifies this
      ensures out == old(out) + Prefix(conv, arg, lflag)
      ensures num == Magnitude(conv, arg, lflag) && base == BaseOf(conv)
    {
      base := 16;
      if conv == 'd' {
        num := GetInt(arg, lflag) % 0x1_0000_0000_0000_0000;
        if num >= 0x8000_0000_0000_0000 {
          Putch('-');
          num := 0x1_0000_0000_0000_0000 - num;
        }
        base := 10;
      } else if conv == 'p' {
        Putch('0');
        Putch('x');
        num := arg % 0x1_0000_0000;
      } else {
        num := GetUint(arg, lflag);
        if conv == 'u' {
          base := 10;
        } else if conv == 'o' {
          base := 8;
        }
      }
    }

    method Convert(conv: char, arg: int, lflag: nat, width: int, padc: char)
      requires conv in ['d', 'u', 'o', 'x', 'p']
      modifies this
      ensures out == old(out) + Converted(conv, arg, lflag, width, padc)
    {
      var num, base := Begin(conv, arg, lflag);
      PrintNum(num, base, width, padc);
    }
  }

  // ---- Parsing -------------------------------------------------------------------------------------

  /** A C string: the terminator follows the characters. */
  function At(s: seq<char>, i: nat): char {
    if i < |s| then s[i] else '\0'
  }

  function SkipBlanks(s: seq<char>, i: nat): (j: nat)
    requires i <= |s|
    ensures i <= j <= |s|
    decreases |s| - i
  {
    if i < |s| && (s[i] == ' ' || s[i] == '\t') then SkipBlanks(s, i + 1) else i
  }

  datatype Parsed = Parsed(value: int, end: nat)

  function Scan(s: seq<char>, i: nat, base: int, val: int): (p: Parsed)
    requires i <= |s|
    ensures i <= p.end <= |s|
    decreases |s| - i
  {
    if i < |s| && 0 <= DigitOf(s[i]) < base
    then Scan(s, i + 1, base, Int32(val * base + DigitOf(s[i])))
    else Parsed(val, i)
  }

  /** Where the digits start and their base, from a prefix `0x` or `0` that the base allows. */
  function Radix(s: seq<char>, i: nat, base: int): (r: (nat, int))
    requires i <= |s|
    ensures i <= r.0 <= |s|
  {
    var hex := (base == 0 || base == 16) && At(s, i) == '0' && At(s, i + 1) == 'x';
    if hex then (i + 2, 16)
    else if base == 0 && At(s, i) == '0' then (i + 1, 8)
    else (i, if base == 0 then 10 else base)
  }

  function Strtol(s: seq<char>, base: int): Parsed {
    var start := SkipBlanks(s, 0);
    var neg := At(s, start) == '-';
    var (i, b) := Radix(s, if At(s, start) == '+' || neg then start + 1 else start, base);
    var p := Scan(s, i, b, 0);
    if neg then p.(value := Int32(-p.value)) else p
  }

  method ScanDigits(s: seq<char>, start: nat, base: int) returns (value: int, end: nat)
    requires start <= |s|
    ensures Parsed(value, end) == Scan(s, start, base, 0)
  {
    value, end := 0, start;
    while true
      invariant start <= end <= |s| && Scan(s, end, base, value) == Scan(s, start, base, 0)
      decreases |s| - end
    {
      var dig := DigitOf(At(s, end));
      if dig < 0 || dig >= base { break; }
      end, value := end + 1, Int32(value * base + dig);
    }
  }

  method PassBlanks(s: seq<char>) returns (i: nat)
    ensures i == SkipBlanks(s, 0)
  {
    i := 0;
    while At(s, i) == ' ' || At(s, i) == '\t'
      invariant i <= |s| && SkipBlanks(s, i) == SkipBlanks(s, 0)
      decreases |s| - i
    {
      i := i + 1;
    }
  }

  method TakePrefix(s: seq<char>, i0: nat, base0: int) returns (i: nat, base: int)
    requires i0 <= |s|
    ensures (i, base) == Radix(s, i0, base0)
  {
    i, base := i0, base0;
    if (base == 0 || base == 16) && At(s, i) == '0' && At(s, i + 1) == 'x' {
      i, base := i + 2, 16;
    } else if base == 0 && At(s, i) == '0' {
      i, base := i + 1, 8;
    } else if base == 0 {
      base := 10;
    }
  }

  method ParseLong(s: seq<char>, base0: int) returns (value: int, end: nat)
    ensures Parsed(value, end) == Strtol(s, base0)
  {
    var neg := false;
    var i := PassBlanks(s);
    if At(s, i) == '+' {
      i := i + 1;
    } else if At(s, i) == '-' {
      i, neg := i + 1, true;
    }
    var base;
    i, base := TakePrefix(s, i, base0);
    value, end := ScanDigits(s, i, base);
    if neg { value := Int32(-value); }
  }

  // ---- Round trip ------------------------------------------------------------------------------------

  /** The number a string of digits stands for, read on from v. */
  function Horner(v: int, s: seq<char>, base: int): int
    decreases |s|
  {
    if s == [] then v else Horner(v * base + DigitOf(s[0]), s[1..], base)
  }

  predicate AllDigits(s: seq<char>, base: int) {
    forall i :: 0 <= i < |s| ==> 0 <= DigitOf(s[i]) < base && s[i] !in [' ', '\t', '+', '-', 'x']
  }

  lemma Wrap(a: int, base: int, d: int)
    ensures Int32(Int32(a) * base + d) == Int32(a * base + d)
  {
    var k := (a + 0x8000_0000) / 0x1_0000_0000;
    assert Int32(a) == a - k * 0x1_0000_0000;
    assert Int32(a) * base + d == a * base + d - (k * base) * 0x1_0000_0000;
    Cycle(a * base + d, k * base);
  }

  lemma Cycle(x: int, k: int)
    ensures Int32(x - k * 0x1_0000_0000) == Int32(x)
  {
    var y := x + 0x8000_0000;
    assert y - k * 0x1_0000_0000 == (y / 0x1_0000_0000 - k) * 0x1_0000_0000 + y % 0x1_0000_0000;
  }

  lemma {:induction false} ScanReads(s: seq<char>, i: nat, base: int, v: int)
    requires i <= |s| && AllDigits(s[i..], base)
    ensures Scan(s, i, base, Int32(v)) == Parsed(Int32(Horner(v, s[i..], base)), |s|)
    decreases |s| - i
  {
    if i < |s| {
      assert s[i..][0] == s[i] && s[i..][1..] == s[i + 1..];
      Wrap(v, base, DigitOf(s[i]));
      ScanReads(s, i + 1, base, v * base + DigitOf(s[i]));
    }
  }

  lemma {:induction false} HornerSnoc(v: int, s: seq<char>, c: char, base: int)
    ensures Horner(v, s + [c], base) == Horner(v, s, base) * base + DigitOf(c)
    decreases |s|
  {
    if s != [] {
      assert (s + [c])[1..] == s[1..] + [c];
      HornerSnoc(v * base + DigitOf(s[0]), s[1..], c, base);
    } else {
      assert (s + [c])[1..] == [];
    }
  }

  lemma DivMod(num: nat, base: nat)
    requires base > 0
    ensures num / base * base + num % base == num
  {
  }

  lemma {:induction false} DigitsAll(num: nat, base: nat)
    requires 2 <= base <= 16
    ensures AllDigits(Digits(num, base), base)
    decreases num
  {
    DigitRoundTrip(num % base);
    if num >= base {
      Shrinks(num, base);
      DigitsAll(num / base, base);
    }
  }

  /** Digits are a positional numeral for the number. */
  lemma {:induction false} DigitsMean(num: nat, base: nat)
    requires 2 <= base <= 16
    ensures Horner(0, Digits(num, base), base) == num
    decreases num
  {
    var lead, c := if num >= base then Digits(num / base, base) else [], DigitChar(num % base);
    assert Digits(num, base) == lead + [c];
    HornerSnoc(0, lead, c, base);
    DigitRoundTrip(num % base);
    if num >= base {
      Shrinks(num, base);
      DigitsMean(num / base, base);
      DivMod(num, base);
    } else {
      SmallMod(num, base);
    }
  }

  lemma SmallMod(num: nat, base: nat)
    requires num < base
    ensures num % base == num
  {
  }

  lemma ZeroDigits(n: int, s: seq<char>, base: int)
    requires base >= 2 && AllDigits(s, base)
    ensures AllDigits(Repeat('0', n) + s, base)
  {
  }

  /** Leading zeros do not count. */
  lemma {:induction false} ZeroPad(n: int, s: seq<char>, base: int)
    ensures Horner(0, Repeat('0', n) + s, base) == Horner(0, s, base)
    decreases if n > 0 then n else 0
  {
    if n > 0 {
      ZeroPad(n - 1, s, base);
      assert (Repeat('0', n) + s)[0] == '0';
      assert (Repeat('0', n) + s)[1..] == Repeat('0', n - 1) + s;
    } else {
      assert Repeat('0', n) + s == s;
    }
  }

  lemma {:induction false} SkipsBlanks(s: seq<char>, i: nat, k: nat)
    requires i <= k <= |s| && (forall j :: i <= j < k ==> s[j] in {' ', '\t'}) && At(s, k) != ' ' && At(s, k) != '\t'
    ensures SkipBlanks(s, i) == k
    decreases k - i
  {
    if i < k { SkipsBlanks(s, i + 1, k); }
  }

  lemma Blanks(s: seq<char>, blanks: seq<char>, rest: seq<char>)
    requires forall i :: 0 <= i < |blanks| ==> blanks[i] == ' '
    requires s == blanks + rest && rest != [] && rest[0] != ' ' && rest[0] != '\t'
    ensures SkipBlanks(s, 0) == |blanks| && |blanks| < |s| && s[|blanks|] == rest[0]
  {
    assert forall j :: 0 <= j < |blanks| ==> s[j] == blanks[j];
    assert s[|blanks|] == rest[0];
    SkipsBlanks(s, 0, |blanks|);
  }

  /** Digits after no prefix. */
  lemma PlainRadix(s: seq<char>, i: nat, base: int)
    requires i < |s| && base >= 2 && AllDigits(s[i..], base)
    ensures Radix(s, i, base) == (i, base) && s[i] !in [' ', '\t', '+', '-', 'x']
  {
    assert s[i] == s[i..][0];
    if i + 1 < |s| { assert s[i + 1] == s[i..][1]; }
  }

  lemma ReadsAt(s: seq<char>, start: nat, minus: bool, i: nat, base: int)
    requires SkipBlanks(s, 0) == start && i == (if minus then start + 1 else start) < |s| && (minus ==> s[start] == '-')
    requires base >= 2 && AllDigits(s[i..], base)
    ensures Strtol(s, base) ==
            Parsed(Int32(if minus then -Int32(Horner(0, s[i..], base)) else Horner(0, s[i..], base)), |s|)
  {
    PlainRadix(s, i, base);
    ScanReads(s, i, base, 0);
  }

  /** strtol reads blanks, an optional minus and digits as expected. */
  lemma Reads(s: seq<char>, blanks: seq<char>, minus: bool, digits: seq<char>, base: int)
    requires forall i :: 0 <= i < |blanks| ==> blanks[i] == ' '
    requires digits != [] && AllDigits(digits, base) && base >= 2
    requires s == blanks + (if minus then "-" else "") + digits
    ensures Strtol(s, base) ==
            Parsed(Int32(if minus then -Int32(Horner(0, digits, base)) else Horner(0, digits, base)), |s|)
  {
    var i := |blanks| + if minus then 1 else 0;
    assert s[i..] == digits;
    assert s == blanks + s[|blanks|..];
    assert s[|blanks|..][0] == if minus then '-' else digits[0];
    Blanks(s, blanks, s[|blanks|..]);
    ReadsAt(s, |blanks|, minus, i, base);
  }

  lemma ReadsField(s: seq<char>, minus: bool, num: nat, base: nat, width: int, padc: char)
    requires 2 <= base <= 16 && padc in {' ', '0'} && (minus && padc == ' ' ==> width <= |Digits(num, base)|)
    requires s == (if minus then "-" else "") + Field(num, base, width, padc)
    ensures Strtol(s, base) == Parsed(Int32(if minus then -Int32(num) else num), |s|)
  {
    var d := Digits(num, base);
    DigitsMean(num, base);
    DigitsAll(num, base);
    ReadsPadded(s, minus, d, base, width - |d|, padc);
  }

  lemma ReadsPadded(s: seq<char>, minus: bool, d: seq<char>, base: nat, n: int, padc: char)
    requires base >= 2 && padc in {' ', '0'} && (minus && padc == ' ' ==> n <= 0) && d != [] && AllDigits(d, base)
    requires s == (if minus then "-" else "") + (Repeat(padc, n) + d)
    ensures Strtol(s, base) == Parsed(Int32(if minus then -Int32(Horner(0, d, base)) else Horner(0, d, base)), |s|)
  {
    var pad := Repeat(padc, n);
    if padc == ' ' {
      assert s == pad + (if minus then "-" else "") + d;
      Reads(s, pad, minus, d, base);
    } else {
      ZeroDigits(n, d, base);
      ZeroPad(n, d, base);
      assert s == [] + (if minus then "-" else "") + (pad + d);
      Reads(s, [], minus, pad + d, base);
    }
  }

  lemma FieldLength(num: nat, base: nat, width: int, padc: char)
    requires 2 <= base <= 16
    ensures |Field(num, base, width, padc)| == if width > |Digits(num, base)| then width else |Digits(num, base)|
  {
  }

  lemma Fits(num: int)
    requires -0x8000_0000 <= num < 0x8000_0000
    ensures Int32(num) == num
  {
  }

  lemma NegativeFits(num: int)
    requires 0 < num <= 0x8000_0000
    ensures Int32(-Int32(num)) == -num
  {
  }

  /** printnum fills exactly the larger of the width and the digits, and strtol in the same base
      reads the number back and consumes the whole field. */
  lemma PrintParse(num: nat, base: nat, width: int, padc: char)
    requires num < 0x8000_0000 && 2 <= base <= 16 && padc in {' ', '0'}
    ensures var f := Field(num, base, width, padc);
            && |f| == (if width > |Digits(num, base)| then width else |Digits(num, base)|)
            && Strtol(f, base) == Parsed(num, |f|)
  {
    var f := Field(num, base, width, padc);
    FieldLength(num, base, width, padc);
    Fits(num);
    assert f == "" + f;
    ReadsField(f, false, num, base, width, padc);
  }

  lemma MinusBlank(s: seq<char>, base: int)
    requires |s| > 1 && s[0] == '-' && s[1] == ' ' && base >= 2
    ensures Strtol(s, base) == Parsed(0, 1)
  {
    SkipsBlanks(s, 0, 0);
  }

  lemma NegativeFails(s: seq<char>, num: nat, base: nat, width: int)
    requires 2 <= base <= 16 && width > |Digits(num, base)| && s == "-" + Field(num, base, width, ' ')
    ensures Strtol(s, base) == Parsed(0, 1)
  {
    assert s[1] == Repeat(' ', width - |Digits(num, base)|)[0];
    MinusBlank(s, base);
  }

  /** A minus sign before a field reads back exactly when the padding is zeros or there is none:
      strtol takes no blank after the sign. */
  lemma NegativeField(s: seq<char>, num: int, base: nat, width: int, padc: char)
    requires 0 < num <= 0x8000_0000 && 2 <= base <= 16 && padc in {' ', '0'} && s == "-" + Field(num, base, width, padc)
    ensures Strtol(s, base) == Parsed(-num, |s|) <==> padc == '0' || width <= |Digits(num, base)|
  {
    if padc == '0' || width <= |Digits(num, base)| {
      ReadsField(s, true, num, base, width, padc);
      NegativeFits(num);
    } else {
      NegativeFails(s, num, base, width);
    }
  }

  // ---- The conversions, base by base -----------------------------------------------------------------

  /** The argument is a value of the C type that the conversion takes. */
  predicate ArgOk(conv: char, arg: int, lflag: nat) {
    if conv == 'd' then
      if lflag >= 2 then -0x8000_0000_0000_0000 <= arg < 0x8000_0000_0000_0000 else -0x8000_0000 <= arg < 0x8000_0000
    else if lflag >= 2 && conv != 'p' then 0 <= arg < 0x1_0000_0000_0000_0000
    else 0 <= arg < 0x1_0000_0000
  }

  /** No leading zeros. */
  lemma {:induction false} Shortest(num: nat, base: nat)
    requires 2 <= base <= 16
    ensures Digits(num, base)[0] == '0' <==> num == 0
    ensures num == 0 ==> Digits(num, base) == ['0']
    decreases num
  {
    if num >= base {
      Shrinks(num, base);
      Shortest(num / base, base);
      DivMod(num, base);
      assert Digits(num, base)[0] == Digits(num / base, base)[0];
    } else {
      SmallMod(num, base);
      DigitRoundTrip(num);
    }
  }

  lemma Unsigned64(arg: int)
    requires 0 <= arg < 0x1_0000_0000_0000_0000
    ensures arg % 0x1_0000_0000_0000_0000 == arg
  {
  }

  lemma Unsigned32(arg: int)
    requires 0 <= arg < 0x1_0000_0000
    ensures arg % 0x1_0000_0000 == arg
  {
  }

  lemma SignedRead(arg: int, lflag: nat)
    requires ArgOk('d', arg, lflag)
    ensures GetInt(arg, lflag) == arg
  {
    if lflag >= 2 {
      Unsigned64(arg + 0x8000_0000_0000_0000);
    } else {
      Fits(arg);
    }
  }

  lemma UnsignedRead(arg: int, lflag: nat)
    requires if lflag >= 2 then 0 <= arg < 0x1_0000_0000_0000_0000 else 0 <= arg < 0x1_0000_0000
    ensures GetUint(arg, lflag) == arg
  {
    if lflag >= 2 { Unsigned64(arg); } else { Unsigned32(arg); }
  }

  lemma ArgRead(conv: char, arg: int, lflag: nat)
    requires ArgOk(conv, arg, lflag)
    ensures conv == 'd' ==> GetInt(arg, lflag) == arg
    ensures Magnitude(conv, arg, lflag) == if arg < 0 then -arg else arg
  {
    if conv == 'd' {
      SignedRead(arg, lflag);
    } else {
      UnsignedRead(arg, if conv == 'p' then 0 else lflag);
    }
  }

  function Mark(conv: char, arg: int): string {
    if conv == 'p' then "0x" else if arg < 0 then "-" else ""
  }

  lemma ConvertIs(conv: char, arg: int, lflag: nat, width: int, padc: char)
    requires conv in ['d', 'u', 'o', 'x', 'p'] && ArgOk(conv, arg, lflag)
    ensures Converted(conv, arg, lflag, width, padc) ==
            Mark(conv, arg) + Field(if arg < 0 then -arg else arg, BaseOf(conv), width, padc)
  {
    ArgRead(conv, arg, lflag);
  }

  /** Padding to the width, and the shortest numeral. */
  lemma FieldMeans(num: nat, base: nat, width: int, padc: char) returns (pad: seq<char>, digits: seq<char>)
    requires 2 <= base <= 16
    ensures Field(num, base, width, padc) == pad + digits && AllDigits(digits, base) && Horner(0, digits, base) == num
    ensures digits != [] && (digits[0] == '0' <==> num == 0) && (num == 0 ==> digits == ['0'])
    ensures |pad| == (if width > |digits| then width - |digits| else 0) && forall i :: 0 <= i < |pad| ==> pad[i] == padc
  {
    digits := Numeral(num, base);
    pad := Repeat(padc, width - |digits|);
  }

  lemma Numeral(num: nat, base: nat) returns (digits: seq<char>)
    requires 2 <= base <= 16
    ensures digits == Digits(num, base) && AllDigits(digits, base) && Horner(0, digits, base) == num
    ensures digits != [] && (digits[0] == '0' <==> num == 0) && (num == 0 ==> digits == ['0'])
  {
    digits := Digits(num, base);
    DigitsAll(num, base);
    DigitsMean(num, base);
    Shortest(num, base);
  }

  /** What is printed for any argument of the right type: the sign or 0x, the padding, and the
      shortest numeral for the argument's absolute value, in base 10 for d and u, 8 for o and 16 for
      x and p. */
  lemma ConvertMeans(conv: char, arg: int, lflag: nat, width: int, padc: char)
    returns (pad: seq<char>, digits: seq<char>)
    requires conv in ['d', 'u', 'o', 'x', 'p'] && ArgOk(conv, arg, lflag)
    ensures Converted(conv, arg, lflag, width, padc) == Mark(conv, arg) + (pad + digits)
    ensures var base := if conv in ['d', 'u'] then 10 else if conv == 'o' then 8 else 16;
            AllDigits(digits, base) && Horner(0, digits, base) == if arg < 0 then -arg else arg
    ensures digits != [] && (digits[0] == '0' <==> arg == 0) && (arg == 0 ==> digits == ['0'])
    ensures |pad| == (if width > |digits| then width - |digits| else 0) && forall i :: 0 <= i < |pad| ==> pad[i] == padc
  {
    ConvertIs(conv, arg, lflag, width, padc);
    pad, digits := FieldMeans(if arg < 0 then -arg else arg, BaseOf(conv), width, padc);
  }

  /** strtol in base 10, 8 or 16 reads back what u, d, o and x print, and consumes it all. */
  lemma ConvertReadsBack(conv: char, arg: int, lflag: nat, width: int, padc: char)
    requires conv in ['d', 'u', 'o', 'x'] && 0 <= arg < 0x8000_0000 && padc in {' ', '0'}
    ensures var f := Converted(conv, arg, lflag, width, padc);
            Strtol(f, if conv in ['d', 'u'] then 10 else if conv == 'o' then 8 else 16) == Parsed(arg, |f|)
  {
    ArgRead(conv, arg, lflag);
    var f := Field(arg, BaseOf(conv), width, padc);
    assert Converted(conv, arg, lflag, width, padc) == "" + f == f;
    PrintParse(arg, BaseOf(conv), width, padc);
  }

  lemma HexPrefix(s: seq<char>)
    requires |s| > 2 && s[0] == '0' && s[1] == 'x'
    ensures Strtol(s, 16) == Scan(s, 2, 16, 0)
  {
    SkipsBlanks(s, 0, 0);
  }

  /** After 0x strtol takes digits or leading zeros, but no blanks. */
  lemma HexReads(s: seq<char>, num: nat, width: int, padc: char)
    requires padc in {' ', '0'} && s == "0x" + Field(num, 16, width, padc)
    ensures padc == '0' || width <= |Digits(num, 16)| ==> Strtol(s, 16) == Parsed(Int32(num), |s|)
    ensures padc == ' ' && width > |Digits(num, 16)| ==> Strtol(s, 16) == Parsed(0, 2)
  {
    var d := Digits(num, 16);
    var n := width - |d|;
    HexPrefix(s);
    assert s[2..] == Repeat(padc, n) + d;
    if padc == ' ' && n > 0 {
      assert s[2] == s[2..][0] == ' ';
    } else {
      DigitsAll(num, 16);
      DigitsMean(num, 16);
      if padc == '0' {
        ZeroDigits(n, d, 16);
        ZeroPad(n, d, 16);
      } else {
        assert s[2..] == d;
      }
      Fits(0);
      ScanReads(s, 2, 16, 0);
    }
  }

  /** A pointer reads back exactly when it is padded with zeros or not at all. */
  lemma PointerReadsBack(arg: int, lflag: nat, width: int, padc: char)
    requires 0 <= arg < 0x8000_0000 && padc in {' ', '0'}
    ensures var f := Converted('p', arg, lflag, width, padc);
            Strtol(f, 16) == Parsed(arg, |f|) <==> padc == '0' || width <= |Digits(arg, 16)|
  {
    ArgRead('p', arg, lflag);
    Fits(arg);
    HexReads(Converted('p', arg, lflag, width, padc), arg, width, padc);
  }

  /** %d on a negative int prints what strtol reads back exactly when it is padded with
      zeros or not at all; with `ll` too. */
  lemma PrintParseNegative(arg: int, lflag: nat, width: int, padc: char)
    requires -0x8000_0000 <= arg < 0 && padc in {' ', '0'}
    ensures var f := Converted('d', arg, lflag, width, padc);
            Strtol(f, 10) == Parsed(arg, |f|) <==> padc == '0' || width <= |Digits(-arg, 10)|
  {
    Fits(arg);
    assert GetInt(arg, lflag) == arg;
    NegativeField(Converted('d', arg, lflag, width, padc), -arg, 10, width, padc);
  }

  // ---- What strtol takes -------------------------------------------------------------------------------

  predicate IsDigit(c: char, base: int) {
    0 <= DigitOf(c) < base
  }

  /** The digits from i on, up to the first character that is none. */
  lemma {:induction false} ScanTo(s: seq<char>, i: nat, k: nat, base: int, v: int)
    requires i <= k <= |s| && (forall j :: i <= j < k ==> IsDigit(s[j], base)) && (k < |s| ==> !IsDigit(s[k], base))
    ensures Scan(s, i, base, Int32(v)) == Parsed(Int32(Horner(v, s[i..k], base)), k)
    decreases k - i
  {
    if i < k {
      assert s[i..k][0] == s[i] && s[i..k][1..] == s[i + 1..k];
      Wrap(v, base, DigitOf(s[i]));
      ScanTo(s, i + 1, k, base, v * base + DigitOf(s[i]));
    }
  }

  /** The prefix that stands before the digits in `tail`, and the base it leads to. */
  predicate Prefixed(prefix: string, tail: seq<char>, base0: int, base: int) {
    if |prefix| == 2 then prefix[0] == '0' && prefix[1] == 'x' && (base0 == 0 || base0 == 16) && base == 16
    else if |prefix| == 1 then prefix[0] == '0' && base0 == 0 && base == 8 && At(tail, 0) != 'x'
    else
      && prefix == [] && base == (if base0 == 0 then 10 else base0)
      && !(base0 == 0 && At(tail, 0) == '0') && !(base0 == 16 && At(tail, 0) == '0' && At(tail, 1) == 'x')
  }

  lemma PrefixIs(s: seq<char>, i: nat, prefix: string, tail: seq<char>, base0: int, base: int)
    requires i <= |s| && s[i..] == prefix + tail && Prefixed(prefix, tail, base0, base)
    ensures Radix(s, i, base0) == (i + |prefix|, base)
  {
    TailAt(s, i, prefix + tail, 0);
    TailAt(s, i, prefix + tail, 1);
    if |prefix| == 2 {
      assert (prefix + tail)[0] == '0' && (prefix + tail)[1] == 'x';
    } else if |prefix| == 1 {
      assert (prefix + tail)[0] == '0' && At(prefix + tail, 1) == At(tail, 0);
    } else {
      assert prefix + tail == tail;
    }
  }

  lemma TailAt(s: seq<char>, i: nat, t: seq<char>, k: nat)
    requires i <= |s| && s[i..] == t
    ensures At(s, i + k) == At(t, k)
  {
    if k < |t| { assert s[i..][k] == s[i + k]; }
  }

  /** No sign, a plus or a minus. */
  predicate IsSign(sign: string) {
    |sign| <= 1 && (sign != [] ==> sign[0] == '+' || sign[0] == '-')
  }

  predicate IsMinus(sign: string) {
    sign != [] && sign[0] == '-'
  }

  function Sign(sign: string): int {
    if IsMinus(sign) then -1 else 1
  }

  lemma SignIs(s: seq<char>, start: nat, sign: string, tail: seq<char>)
    requires start <= |s| && s[start..] == sign + tail && IsSign(sign)
    requires sign == [] ==> At(tail, 0) !in ['+', '-']
    ensures start + |sign| <= |s| && s[start + |sign|..] == tail
    ensures At(s, start) == '-' <==> IsMinus(sign)
    ensures At(s, start) == '+' <==> sign != [] && !IsMinus(sign)
    ensures sign != [] ==> At(s, start) !in [' ', '\t']
    ensures sign == [] ==> At(s, start) == At(tail, 0)
  {
    TailAt(s, start, sign + tail, 0);
    if sign == [] {
      assert sign + tail == tail;
    } else {
      assert (sign + tail)[0] == sign[0];
    }
  }

  lemma Negated(x: int)
    ensures Int32(-Int32(x)) == Int32(-x)
  {
    Wrap(x, -1, 0);
  }

  lemma DropPrefix(s: seq<char>, i: nat, prefix: seq<char>, tail: seq<char>)
    requires i <= |s| && s[i..] == prefix + tail
    ensures i + |prefix| <= |s| && s[i + |prefix|..] == tail
  {
    assert s[i + |prefix|..] == s[i..][|prefix|..];
  }

  /** strtol from the sign on. */
  lemma AfterBlanks(s: seq<char>, start: nat, minus: bool, i: nat, first: nat, base0: int, base: int, p: Parsed)
    requires SkipBlanks(s, 0) == start && (At(s, start) == '-' <==> minus)
    requires i == (if At(s, start) in ['+', '-'] then start + 1 else start) <= |s|
    requires Radix(s, i, base0) == (first, base) && Scan(s, first, base, 0) == p
    ensures Strtol(s, base0) == p.(value := if minus then Int32(-p.value) else p.value)
  {
  }

  /** The digits are found behind the prefix, and read up to the rest. */
  lemma BodyRead(s: seq<char>, i: nat, prefix: string, digits: seq<char>, rest: seq<char>, base0: int, base: int)
    requires i <= |s| && s[i..] == prefix + (digits + rest) && Prefixed(prefix, digits + rest, base0, base)
    requires (forall i :: 0 <= i < |digits| ==> IsDigit(digits[i], base)) && (rest != [] ==> !IsDigit(rest[0], base))
    ensures var first := i + |prefix|;
            && first <= |s| && Radix(s, i, base0) == (first, base)
            && Scan(s, first, base, 0) == Parsed(Int32(Horner(0, digits, base)), first + |digits|)
  {
    PrefixIs(s, i, prefix, digits + rest, base0, base);
    DropPrefix(s, i, prefix, digits + rest);
    DigitsThenRest(s, i + |prefix|, digits, rest, base);
  }

  lemma StrtolFrom(s: seq<char>, start: nat, sign: string, prefix: string, digits: seq<char>, rest: seq<char>,
                   base0: int, base: int)
    requires SkipBlanks(s, 0) == start && s[start..] == sign + (prefix + (digits + rest)) && IsSign(sign)
    requires Prefixed(prefix, digits + rest, base0, base)
    requires (forall i :: 0 <= i < |digits| ==> IsDigit(digits[i], base)) && (rest != [] ==> !IsDigit(rest[0], base))
    requires sign == [] ==> At(prefix + (digits + rest), 0) !in ['+', '-']
    ensures Strtol(s, base0) ==
            Parsed(Int32(Sign(sign) * Horner(0, digits, base)), start + |sign| + |prefix| + |digits|)
  {
    var i := start + |sign|;
    SignIs(s, start, sign, prefix + (digits + rest));
    BodyRead(s, i, prefix, digits, rest, base0, base);
    SignedValue(s, start, sign, i, i + |prefix|, base0, base, Horner(0, digits, base), i + |prefix| + |digits|);
  }

  lemma SignedValue(s: seq<char>, start: nat, sign: string, i: nat, first: nat, base0: int, base: int, v: int, end: nat)
    requires SkipBlanks(s, 0) == start && IsSign(sign) && i == start + |sign| <= |s|
    requires (At(s, start) == '-' <==> IsMinus(sign)) && (At(s, start) == '+' <==> sign != [] && !IsMinus(sign))
    requires Radix(s, i, base0) == (first, base) && Scan(s, first, base, 0) == Parsed(Int32(v), end)
    ensures Strtol(s, base0) == Parsed(Int32(Sign(sign) * v), end)
  {
    AfterBlanks(s, start, IsMinus(sign), i, first, base0, base, Parsed(Int32(v), end));
    Negated(v);
  }

  lemma PassesBlanks(blanks: seq<char>, tail: seq<char>)
    requires (forall i :: 0 <= i < |blanks| ==> blanks[i] in {' ', '\t'}) && At(tail, 0) !in [' ', '\t']
    ensures SkipBlanks(blanks + tail, 0) == |blanks| && (blanks + tail)[|blanks|..] == tail
  {
    var s := blanks + tail;
    assert s[|blanks|..] == tail;
    TailAt(s, |blanks|, tail, 0);
    SkipsBlanks(s, 0, |blanks|);
  }

  /** What strtol makes of any string: blanks, a sign, a prefix that the base allows, the digits of the
      base, and the rest, at which it stops.  The value is the digits' with the sign, to 32 bits. */
  lemma StrtolMeans(blanks: seq<char>, sign: string, prefix: string, digits: seq<char>, rest: seq<char>,
                    base0: int, base: int)
    requires (forall i :: 0 <= i < |blanks| ==> blanks[i] in {' ', '\t'}) && IsSign(sign)
    requires Prefixed(prefix, digits + rest, base0, base)
    requires (forall i :: 0 <= i < |digits| ==> IsDigit(digits[i], base)) && (rest != [] ==> !IsDigit(rest[0], base))
    requires sign == [] ==> At(prefix + (digits + rest), 0) !in ['+', '-', ' ', '\t']
    ensures Strtol(blanks + (sign + (prefix + (digits + rest))), base0) ==
            Parsed(Int32(Sign(sign) * Horner(0, digits, base)), |blanks| + |sign| + |prefix| + |digits|)
  {
    var tail := sign + (prefix + (digits + rest));
    NoBlank(sign, prefix + (digits + rest));
    PassesBlanks(blanks, tail);
    StrtolFrom(blanks + tail, |blanks|, sign, prefix, digits, rest, base0, base);
  }

  lemma NoBlank(sign: string, body: seq<char>)
    requires IsSign(sign) && (sign == [] ==> At(body, 0) !in [' ', '\t'])
    ensures At(sign + body, 0) !in [' ', '\t']
  {
    if sign == [] {
      assert sign + body == body;
    }
  }

  lemma DigitsThenRest(s: seq<char>, first: nat, digits: seq<char>, rest: seq<char>, base: int)
    requires first <= |s| && s[first..] == digits + rest
    requires (forall i :: 0 <= i < |digits| ==> IsDigit(digits[i], base)) && (rest != [] ==> !IsDigit(rest[0], base))
    ensures Scan(s, first, base, 0) == Parsed(Int32(Horner(0, digits, base)), first + |digits|)
  {
    var last := first + |digits|;
    assert s[first..last] == s[first..][..|digits|] == digits;
    forall j | first <= j < last ensures IsDigit(s[j], base) {
      assert s[j] == s[first..][j - first] == digits[j - first];
    }
    if last < |s| {
      assert s[last] == s[first..][|digits|] == rest[0];
    }
    Fits(0);
    ScanTo(s, first, last, base, 0);
  }
}
