/**
  Numbers as text: what printnum writes (lab5/libs/printfmt.c:40-54) and what strtol reads
  (lab5/libs/string.c:204-259) are inverse to each other.
 */
module Numerals {
  const INT64_MAX: int := 0x7FFF_FFFF_FFFF_FFFF
  const WORD: nat := 0x1_0000_0000_0000_0000

  /** What a long holds of x, in two's complement. */
  function Long(x: int): (y: int)
    ensures -INT64_MAX - 1 <= y <= INT64_MAX
  {
    var y := x % WORD; if y < WORD / 2 then y else y - WORD
  }

  /** A long is the one number of its range that agrees with x modulo 2^64. */
  lemma LongIsUnique(x: int, y: int, k: int)
    requires y == x + k * WORD && -INT64_MAX - 1 <= y <= INT64_MAX
    ensures Long(x) == y
  {
  }

  lemma LongAgrees(x: int) returns (k: int)
    ensures Long(x) == x + k * WORD
  {
    k := if x % WORD < WORD / 2 then -(x / WORD) else -(x / WORD) - 1;
  }

  lemma SameLong(x: int, y: int, k: int)
    requires y == x + k * WORD
    ensures Long(x) == Long(y)
  {
    var j := LongAgrees(y);
    LongIsUnique(x, Long(y), j + k);
  }

  /** Wrapping at every step is wrapping once. */
  lemma LongStep(x: int, radix: int, d: int)
    ensures Long(Long(Long(x) * radix) + d) == Long(x * radix + d)
  {
    var j := LongAgrees(x);
    var k := LongAgrees(Long(x) * radix);
    assert (x + j * WORD) * radix == x * radix + j * radix * WORD;
    SameLong(x * radix + d, Long(Long(x) * radix) + d, j * radix + k);
  }

  lemma LongMinus(x: int)
    ensures Long(-Long(x)) == Long(-x)
  {
    var k := LongAgrees(x);
    SameLong(-x, -Long(x), -k);
  }

  lemma LongFits(x: int)
    requires -INT64_MAX - 1 <= x < WORD
    ensures Long(x) == x <==> x <= INT64_MAX
    ensures x >= 0 ==> Long(x) % WORD == x
  {
  }

  const DIGITS: string := "0123456789abcdef"

  lemma Division(n: nat, base: nat)
    requires 2 <= base <= n
    ensures 0 < n / base < n && 0 <= n % base < base && n / base * base + n % base == n
  {
    var q, r := n / base, n % base;
    assert n == base * q + r;
    if q >= n {
      Product(base, q);
    }
  }

  lemma Product(base: nat, q: nat)
    requires 2 <= base
    ensures base * q >= 2 * q
  {
    assert base * q == 2 * q + (base - 2) * q;
  }

  /** The positional notation of n, most significant digit first and without leading zeros. */
  function Digits(n: nat, base: nat): (t: string)
    requires 2 <= base <= 16
    ensures |t| > 0
  {
    if n < base then [DIGITS[n]]
    else
      Division(n, base);
      Digits(n / base, base) + [DIGITS[n % base]]
  }

  function Repeat(c: char, n: int): (t: string)
    ensures |t| == if n > 0 then n else 0
    ensures forall i :: 0 <= i < |t| ==> t[i] == c
  {
    if n <= 0 then [] else seq(n, _ => c)
  }

  /** A number of at least the given width, padded on the left. */
  function Padded(n: nat, base: nat, width: int, padc: char): string
    requires 2 <= base <= 16
  {
    Repeat(padc, width - |Digits(n, base)|) + Digits(n, base)
  }

  /** What "%d" writes: the sign comes before the padding. */
  function Signed(v: int, width: int, padc: char): string {
    if v < 0 then "-" + Padded(-v, 10, width, padc) else Padded(v, 10, width, padc)
  }

  /** A C string is read up to its terminating NUL. */
  function At(s: string, i: nat): char {
    if i < |s| then s[i] else '\0'
  }

  predicate Blank(c: char) {
    c == ' ' || c == '\t'
  }

  /** The value of c as a digit, or -1. */
  function DigitOf(c: char): int {
    if '0' <= c <= '9' then c as int - '0' as int
    else if 'a' <= c <= 'z' then c as int - 'a' as int + 10
    else if 'A' <= c <= 'Z' then c as int - 'A' as int + 10
    else -1
  }

  predicate IsDigit(c: char, base: int) {
    0 <= DigitOf(c) < base
  }

  /** The number that the digits of t denote. */
  function Value(t: string, base: int): int {
    if t == [] then 0 else Value(t[..|t| - 1], base) * base + DigitOf(t[|t| - 1])
  }

  /** The first position from i on that is not blank. */
  function SkipBlanks(s: string, i: nat): (j: nat)
    requires i <= |s|
    ensures i <= j <= |s| && !Blank(At(s, j))
    ensures forall k :: i <= k < j ==> Blank(s[k])
    decreases |s| - i
  {
    if i < |s| && Blank(s[i]) then SkipBlanks(s, i + 1) else i
  }

  /** The first position from i on that holds no digit. */
  function SkipDigits(s: string, i: nat, base: int): (j: nat)
    requires i <= |s|
    ensures i <= j <= |s| && !IsDigit(At(s, j), base)
    ensures forall k :: i <= k < j ==> IsDigit(s[k], base)
    decreases |s| - i
  {
    if i < |s| && IsDigit(s[i], base) then SkipDigits(s, i + 1, base) else i
  }

  datatype Number = Number(value: int, end: nat)

  function NoSign(s: string, i: nat): nat {
    if At(s, i) in {'+', '-'} then i + 1 else i
  }

  /** Where the digits start and in which base they are: "0x" is skipped in base 16, and base 0
      follows the prefix. */
  function Prefix(s: string, i: nat, base: int): (nat, int) {
    if base in {0, 16} && At(s, i) == '0' && At(s, i + 1) == 'x' then (i + 2, 16)
    else if base == 0 && At(s, i) == '0' then (i + 1, 8)
    else if base == 0 then (i, 10)
    else (i, base)
  }

  /** The longest number that s starts with, after blanks, a sign and a prefix, as a long. */
  function Parsed(s: string, base: int): Number {
    var b := SkipBlanks(s, 0);
    var (start, radix) := Prefix(s, NoSign(s, b), base);
    var end := SkipDigits(s, start, radix);
    var v := Value(s[start..end], radix);
    Number(Long(if At(s, b) == '-' then -v else v), end)
  }

  method Strtol(s: string, base: int) returns (val: int, end: nat)
    ensures Number(val, end) == Parsed(s, base)
  {
    hide Value, SkipDigits, SkipBlanks, IsDigit, DigitOf, Blank, Long;
    var neg, radix := false, base;
    var i := ReadBlanks(s);
    if At(s, i) == '+' {
      i := i + 1;
    } else if At(s, i) == '-' {
      i, neg := i + 1, true;
    }
    if (radix == 0 || radix == 16) && At(s, i) == '0' && At(s, i + 1) == 'x' {
      i, radix := i + 2, 16;
    } else if radix == 0 && At(s, i) == '0' {
      i, radix := i + 1, 8;
    } else if radix == 0 {
      radix := 10;
    }
    val, end := ReadDigits(s, i, radix);
    LongMinus(Value(s[i..end], radix));
    val := if neg then Long(-val) else val;
  }

  /** The first loop of strtol. */
  method ReadBlanks(s: string) returns (i: nat)
    ensures i == SkipBlanks(s, 0)
  {
    i := 0;
    while Blank(At(s, i))
      invariant i <= |s| && SkipBlanks(s, 0) == SkipBlanks(s, i)
      decreases |s| - i
    {
      i := i + 1;
    }
  }

  /** The last loop of strtol. */
  method ReadDigits(s: string, start: nat, radix: int) returns (val: int, i: nat)
    requires start <= |s|
    ensures start <= i <= |s| && i == SkipDigits(s, start, radix) && val == Long(Value(s[start..i], radix))
  {
    hide DigitOf, Value, Long;
    val, i := 0, start;
    LongFits(0);
    OneDigitMore(s, start, i, radix);
    while IsDigit(At(s, i), radix)
      invariant start <= i <= |s| && val == Long(Value(s[start..i], radix))
      invariant SkipDigits(s, start, radix) == SkipDigits(s, i, radix)
      decreases |s| - i
    {
      OneDigitMore(s, start, i, radix);
      LongStep(Value(s[start..i], radix), radix, DigitOf(s[i]));
      val := Long(Long(val * radix) + DigitOf(s[i]));
      i := i + 1;
    }
  }

  lemma OneDigitMore(s: string, start: nat, i: nat, radix: int)
    requires start <= i <= |s|
    ensures IsDigit(At(s, i), radix) ==>
              i < |s| && Value(s[start..i + 1], radix) == Value(s[start..i], radix) * radix + DigitOf(s[i])
    ensures Value(s[start..start], radix) == 0
  {
    if i < |s| {
      var t := s[start..i + 1];
      assert t[..|t| - 1] == s[start..i];
    }
  }

  lemma DigitChars(d: nat, base: nat)
    requires d < base <= 16
    ensures DigitOf(DIGITS[d]) == d && IsDigit(DIGITS[d], base) && DIGITS[d] in DIGITS
    ensures DIGITS[d] == '0' <==> d == 0
  {
  }

  lemma {:induction false} DigitsDenote(n: nat, base: nat)
    requires 2 <= base <= 16
    ensures Value(Digits(n, base), base) == n
    ensures forall i :: 0 <= i < |Digits(n, base)| ==> IsDigit(Digits(n, base)[i], base) && Digits(n, base)[i] in DIGITS
    ensures Digits(n, base)[0] == '0' ==> n == 0 && |Digits(n, base)| == 1
  {
    hide DigitOf, IsDigit, Value;
    if n < base {
      DigitChars(n, base);
      ValueOfNext([], DIGITS[n], base);
      assert Digits(n, base) == [] + [DIGITS[n]];
    } else {
      Division(n, base);
      var q, r := n / base, n % base;
      DigitsDenote(q, base);
      DigitChars(r, base);
      ValueOfNext(Digits(q, base), DIGITS[r], base);
    }
  }

  lemma ValueOfNext(t: string, c: char, base: int)
    ensures Value(t + [c], base) == Value(t, base) * base + DigitOf(c) && Value([], base) == 0
  {
    assert (t + [c])[..|t|] == t;
  }

  lemma {:induction false} ZerosVanish(z: nat, t: string, base: int)
    ensures Value(Repeat('0', z) + t, base) == Value(t, base)
  {
    var s := Repeat('0', z) + t;
    if t != [] {
      ZerosVanish(z, t[..|t| - 1], base);
      assert s[..|s| - 1] == Repeat('0', z) + t[..|t| - 1];
    } else if z > 0 {
      ZerosVanish(z - 1, t, base);
      assert s[..|s| - 1] == Repeat('0', z - 1) + t;
    }
  }

  lemma {:induction false} SkipsAll(s: string, i: nat, base: int)
    requires i <= |s| && 2 <= base && forall k :: i <= k < |s| ==> IsDigit(s[k], base)
    ensures SkipDigits(s, i, base) == |s|
    decreases |s| - i
  {
    if i < |s| {
      SkipsAll(s, i + 1, base);
    }
  }

  lemma {:induction false} SkipsBlanks(s: string, i: nat, j: nat)
    requires i <= j <= |s| && !Blank(At(s, j)) && forall k :: i <= k < j ==> Blank(s[k])
    ensures SkipBlanks(s, i) == j
    decreases j - i
  {
    if i < j {
      SkipsBlanks(s, i + 1, j);
    }
  }

  /** Zeros and a numeral at the end of s are read as that number, and no prefix is seen. */
  lemma ReadsNumeral(s: string, i: nat, z: nat, n: nat, base: nat)
    requires base in {8, 10, 16} && i <= |s| && s[i..] == Repeat('0', z) + Digits(n, base)
    ensures Prefix(s, i, base) == (i, base) && SkipDigits(s, i, base) == |s| && Value(s[i..], base) == n
    ensures !Blank(At(s, i)) && NoSign(s, i) == i && At(s, i) != '-'
  {
    hide DigitOf, IsDigit, Value;
    DigitsDenote(n, base);
    ZerosVanish(z, Digits(n, base), base);
    DigitChars(0, base);
    forall k | i <= k < |s| ensures IsDigit(s[k], base) && s[k] in DIGITS {
      assert s[k] == s[i..][k - i];
    }
    SkipsAll(s, i, base);
  }

  /** What is left of a numeral after the padding, or all of it if the padding is zeros. */
  lemma PaddedShape(n: nat, base: nat, width: int, padc: char) returns (i: nat, z: nat)
    requires 2 <= base <= 16 && padc in {' ', '0'}
    ensures var t := Padded(n, base, width, padc);
            && i <= |t| && t[i..] == Repeat('0', z) + Digits(n, base) && (forall k :: 0 <= k < i ==> t[k] == ' ')
            && |t| == (if width > |Digits(n, base)| then width else |Digits(n, base)|)
            && (i == 0 <==> padc == '0' || width <= |Digits(n, base)|)
  {
    var pad := if width > |Digits(n, base)| then width - |Digits(n, base)| else 0;
    if padc == ' ' {
      i, z := pad, 0;
    } else {
      i, z := 0, pad;
    }
  }

  /** After its padding, a padded numeral is read to its end. */
  lemma ReadsPadded(n: nat, base: nat, width: int, padc: char)
    requires base in {8, 10, 16} && padc in {' ', '0'}
    ensures var t := Padded(n, base, width, padc); Parsed(t, base) == Number(Long(n), |t|)
  {
    hide Value, Digits, SkipDigits, SkipBlanks, Prefix, Blank, Padded, Long;
    var t := Padded(n, base, width, padc);
    var i, z := PaddedShape(n, base, width, padc);
    ReadsNumeral(t, i, z, n, base);
    SpacesAreBlank(t, i);
    assert t[i..|t|] == t[i..];
  }

  /** printnum and strtol with the same base: the numeral is read to its end, and what is read
      is the number modulo 2^64, and the number itself if and only if a long can hold it; the
      width is a minimum. */
  lemma RoundTrip(n: nat, base: nat, width: int, padc: char)
    requires base in {8, 10, 16} && padc in {' ', '0'} && n < WORD
    ensures var t := Padded(n, base, width, padc);
            && Parsed(t, base).end == |t| == (if width > |Digits(n, base)| then width else |Digits(n, base)|)
            && Parsed(t, base).value % WORD == n
            && (Parsed(t, base).value == n <==> n <= INT64_MAX)
  {
    hide Parsed, Digits, Padded, Long;
    ReadsPadded(n, base, width, padc);
    var i, z := PaddedShape(n, base, width, padc);
    LongFits(n);
  }

  lemma SpacesAreBlank(t: string, i: nat)
    requires i <= |t| && !Blank(At(t, i)) && forall k :: 0 <= k < i ==> t[k] == ' '
    ensures SkipBlanks(t, 0) == i
  {
    SkipsBlanks(t, 0, i);
  }

  /** Every long is read back from its signed form exactly if the padding does not come between
      sign and digits as blanks; the least one, too, because its magnitude wraps back. */
  lemma SignedRoundTrip(v: int, width: int, padc: char)
    requires padc in {' ', '0'} && -INT64_MAX - 1 <= v <= INT64_MAX
    ensures var t := Signed(v, width, padc);
            Parsed(t, 10) == Number(v, |t|) <==> v >= 0 || padc == '0' || width <= |Digits(-v, 10)|
  {
    hide Value, Digits, SkipDigits, Long;
    LongFits(v);
    if v >= 0 {
      ReadsPadded(v, 10, width, padc);
    } else {
      var t := Signed(v, width, padc);
      var i, z := PaddedShape(-v, 10, width, padc);
      assert t[i + 1..] == Padded(-v, 10, width, padc)[i..];
      ReadsNumeral(t, i + 1, z, -v, 10);
      if i == 0 {
        assert t[1..|t|] == t[1..];
      } else {
        BlankEndsDigits(t, 1, 10);
      }
    }
  }

  /** "%p" writes a prefix that strtol recognises in base 16 as well as without a base.  What is
      read back is the pointer modulo 2^64; pointers from 2^63 on, as all of the kernel's are,
      come back negative. */
  lemma PointerRoundTrip(n: nat, width: int, padc: char, base: int)
    requires padc in {' ', '0'} && base in {0, 16} && n < WORD
    ensures var t := "0x" + Padded(n, 16, width, padc);
            && (Parsed(t, base).end == |t| && Parsed(t, base).value % WORD == n
                <==> padc == '0' || width <= |Digits(n, 16)|)
            && (Parsed(t, base) == Number(n, |t|)
                <==> (padc == '0' || width <= |Digits(n, 16)|) && n <= INT64_MAX)
  {
    hide Value, Digits, SkipDigits, Long;
    var t := "0x" + Padded(n, 16, width, padc);
    var i, z := PaddedShape(n, 16, width, padc);
    LongFits(n);
    assert Prefix(t, NoSign(t, SkipBlanks(t, 0)), base) == (2, 16);
    assert t[i + 2..] == Padded(n, 16, width, padc)[i..];
    ReadsNumeral(t, i + 2, z, n, 16);
    if i == 0 {
      assert t[2..|t|] == t[2..];
    } else {
      BlankEndsDigits(t, 2, 16);
    }
  }

  lemma BlankEndsDigits(t: string, i: nat, base: int)
    requires i < |t| && t[i] == ' '
    ensures SkipDigits(t, i, base) == i
  {
  }

  // ---- said without the functions above ----

  /** What a long holds. */
  lemma LongIs(x: int)
    ensures -0x8000_0000_0000_0000 <= Long(x) < 0x8000_0000_0000_0000
    ensures (x - Long(x)) % 0x1_0000_0000_0000_0000 == 0
  {
    var k := LongAgrees(x);
    assert x - Long(x) == -k * WORD;
    Multiple(-k);
  }

  lemma Multiple(k: int)
    ensures k * WORD % WORD == 0
  {
  }

  /** Digits and letters of both cases, the letters following 9. */
  lemma DigitOfIs(d: nat)
    ensures d < 10 ==> DigitOf(('0' as int + d) as char) == d
    ensures d < 26 ==> DigitOf(('a' as int + d) as char) == DigitOf(('A' as int + d) as char) == d + 10
    ensures forall c :: DigitOf(c) >= 0 <==> '0' <= c <= '9' || 'a' <= c <= 'z' || 'A' <= c <= 'Z'
  {
  }

  function Power(base: int, n: nat): int {
    if n == 0 then 1 else base * Power(base, n - 1)
  }

  /** Positional notation: what stands before counts once more for each digit behind it. */
  lemma {:induction false} ValueSplits(t: string, u: string, base: int)
    ensures Value(t + u, base) == Value(t, base) * Power(base, |u|) + Value(u, base)
    decreases |u|
  {
    hide DigitOf, Value;
    if u == [] {
      assert t + u == t;
      ValueOfNext([], ' ', base);
    } else {
      var n := |u| - 1;
      ValueSplits(t, u[..n], base);
      ValueOfNext(t + u[..n], u[n], base);
      ValueOfNext(u[..n], u[n], base);
      Distribute(Value(t, base), Power(base, n), Value(u[..n], base), base);
      assert t + u == (t + u[..n]) + [u[n]] && u == u[..n] + [u[n]];
      assert Power(base, |u|) == base * Power(base, n);
    }
  }

  lemma ValueOfOne(c: char, base: int)
    ensures Value([c], base) == DigitOf(c)
  {
    hide DigitOf;
    ValueOfNext([], c, base);
    assert [] + [c] == [c];
  }

  lemma Distribute(v: int, p: int, w: int, base: int)
    ensures (v * p + w) * base == v * (base * p) + w * base
  {
  }

  /** t is the numeral of n: digits of the base in lower case, of that value, and no zero in front
      unless that is all. */
  ghost predicate Numeral(t: string, n: nat, base: int) {
    && t != [] && Value(t, base) == n && (t[0] == '0' ==> |t| == 1)
    && forall k :: 0 <= k < |t| ==> ('0' <= t[k] <= '9' || 'a' <= t[k] <= 'f') && 0 <= DigitOf(t[k]) < base
  }

  lemma DigitsAreNumeral(n: nat, base: nat)
    requires 2 <= base <= 16
    ensures Numeral(Digits(n, base), n, base)
  {
    hide Digits, Value, DigitOf;
    DigitsDenote(n, base);
    DigitOfIs(0);
    forall c | c in DIGITS ensures '0' <= c <= '9' || 'a' <= c <= 'f' {
    }
  }

  /** Where the digits start behind blanks and a sign, and their radix. */
  predicate Starts(s: string, b: nat, base: int, start: nat, radix: int) {
    var g := if At(s, b) in {'+', '-'} then b + 1 else b;
    if base in {0, 16} && At(s, g) == '0' && At(s, g + 1) == 'x' then start == g + 2 && radix == 16
    else if base == 0 && At(s, g) == '0' then start == g + 1 && radix == 8
    else start == g && radix == if base == 0 then 10 else base
  }

  /** What strtol reads, character by character: blanks up to b, a sign and a prefix up to start,
      and digits of the radix up to end. */
  lemma ReadsAs(s: string, b: nat, start: nat, end: nat, base: int, radix: int)
    requires b <= start <= end <= |s| && Starts(s, b, base, start, radix)
    requires (forall k :: 0 <= k < b ==> s[k] in {' ', '\t'}) && At(s, b) !in {' ', '\t'}
    requires forall k :: start <= k < end ==> 0 <= DigitOf(s[k]) < radix
    requires !(0 <= DigitOf(At(s, end)) < radix)
    ensures var v := Value(s[start..end], radix);
            Parsed(s, base) == Number(Long(if At(s, b) == '-' then -v else v), end)
  {
    hide Value, DigitOf, Long, SkipBlanks, SkipDigits, Prefix, NoSign, Starts, At;
    SkipsBlanks(s, 0, b);
    SkipsDigits(s, start, end, radix);
    StartsAt(s, b, base, start, radix);
  }

  lemma StartsAt(s: string, b: nat, base: int, start: nat, radix: int)
    requires Starts(s, b, base, start, radix)
    ensures Prefix(s, NoSign(s, b), base) == (start, radix)
  {
  }

  lemma {:induction false} SkipsDigits(s: string, i: nat, j: nat, radix: int)
    requires i <= j <= |s| && !IsDigit(At(s, j), radix) && forall k :: i <= k < j ==> IsDigit(s[k], radix)
    ensures SkipDigits(s, i, radix) == j
    decreases j - i
  {
    if i < j { SkipsDigits(s, i + 1, j, radix); }
  }

  /** The comment promises a prefix "0X", too; it is not read. */
  lemma CapitalPrefix(s: string)
    requires s == "0X1f"
    ensures Parsed(s, 16) == Number(0, 1)
  {
    ReadsAs(s, 0, 0, 1, 16, 16);
    assert s[0..1] == [] + ['0'];
    ValueOfNext([], '0', 16);
    LongFits(0);
  }
}
