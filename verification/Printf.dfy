/**
  Formatted output (lab5/libs/printfmt.c): vprintfmt walks its format with jumps back and
  forth; what it emits is what a plain recursion over the format renders.
 */
module Printf {
  import opened Numerals

  const E_INVAL: int := 3
  const MAXERROR: int := 24
  const HALF: nat := 0x1_0000_0000

  /** What a C string holds before its NUL. */
  type CString = s: string | '\0' !in s

  /** The variable arguments as 64-bit slots, and the strings and error texts they may name. */
  datatype Args = Args(slots: nat -> nat, strings: nat -> CString, errors: nat -> string)

  datatype Flags = Flags(padc: char, width: int, precision: int, longs: nat, alt: bool)

  const PLAIN: Flags := Flags(' ', -1, -1, 0, false)

  function Signed32(x: nat): int {
    var y := x % HALF; if y < HALF / 2 then y else y - HALF
  }

  /** getint and getuint: an int unless there is an 'l'. */
  function GetInt(x: nat, f: Flags): int {
    if f.longs > 0 then Long(x) else Signed32(x)
  }

  function GetUint(x: nat, f: Flags): nat {
    if f.longs > 0 then x % WORD else x % HALF
  }

  function CharOf(x: int): char {
    (x % 256) as char
  }

  predicate Printable(c: char) {
    ' ' <= c <= '~'
  }

  function Masked(s: string, alt: bool): (t: string)
    ensures |t| == |s|
  {
    if s == [] then [] else [if alt && !Printable(s[0]) then '?' else s[0]] + Masked(s[1..], alt)
  }

  function Min(a: int, b: int): int {
    if a < b then a else b
  }

  /** How much of s "%s" shows: a negative precision does not limit it. */
  function Shown(s: string, precision: int): (n: nat)
    ensures n <= |s|
  {
    if precision < 0 then |s| else Min(|s|, precision)
  }

  /** "%s": padded on the left with padc, or on the right with blanks if padc is '-'. */
  function StringText(s: string, f: Flags): string {
    var n := Shown(s, f.precision);
    var pad := f.width - n;
    (if f.padc != '-' then Repeat(f.padc, pad) else []) + Masked(s[..n], f.alt)
    + (if f.padc == '-' then Repeat(' ', pad) else [])
  }

  function ErrorText(err: int, errors: nat -> string): string {
    var e: nat := if err < 0 then -err else err;
    if e > MAXERROR || errors(e) == "" then "error " + Signed(e, -1, ' ') else errors(e)
  }

  /** What a conversion emits for its argument, if c is one. */
  function Conversion(c: char, f: Flags, x: nat, a: Args): string {
    match c
    case 'c' => [CharOf(Signed32(x))]
    case 'e' => ErrorText(Signed32(x), a.errors)
    case 's' => StringText(if x == 0 then "(null)" else a.strings(x), f)
    case 'd' => Signed(GetInt(x, f), f.width, f.padc)
    case 'u' => Padded(GetUint(x, f), 10, f.width, f.padc)
    case 'o' => Padded(GetUint(x, f), 8, f.width, f.padc)
    case 'p' => "0x" + Padded(x % WORD, 16, f.width, f.padc)
    case 'x' => Padded(GetUint(x, f), 16, f.width, f.padc)
    case _ => "%"
  }

  predicate IsConversion(c: char) {
    c in "cesduopx%"
  }

  /** '%' itself takes no argument. */
  function Taken(c: char): nat {
    if c == '%' then 0 else 1
  }

  predicate Decimal(c: char) {
    '0' <= c <= '9'
  }

  /** A width that was not given is set first, a precision second. */
  function WithNumber(f: Flags, n: int): Flags {
    if f.width < 0 then f.(width := n, precision := -1) else f.(precision := n)
  }

  function NumberEnd(s: string, i: nat): (j: nat)
    requires i <= |s|
    ensures i <= j <= |s|
    decreases |s| - i
  {
    if i < |s| && Decimal(s[i]) then NumberEnd(s, i + 1) else i
  }

  datatype Directive = Directive(end: nat, flags: Flags, ap: nat)

  /** The flags from i on: where they end, what they say, and which argument is next. */
  function Scan(s: string, i: nat, f: Flags, ap: nat, a: Args): (d: Directive)
    requires i <= |s|
    ensures i <= d.end <= |s|
    decreases |s| - i
  {
    match At(s, i)
    case '-' => Scan(s, i + 1, f.(padc := '-'), ap, a)
    case '0' => Scan(s, i + 1, f.(padc := '0'), ap, a)
    case '*' => Scan(s, i + 1, WithNumber(f, Signed32(a.slots(ap))), ap + 1, a)
    case '.' => Scan(s, i + 1, if f.width < 0 then f.(width := 0) else f, ap, a)
    case '#' => Scan(s, i + 1, f.(alt := true), ap, a)
    case 'l' => Scan(s, i + 1, f.(longs := f.longs + 1), ap, a)
    case c =>
      if Decimal(c) then
        var j := NumberEnd(s, i + 1);
        Scan(s, j, WithNumber(f, Value(s[i..j], 10)), ap, a)
      else Directive(i, f, ap)
  }

  /** The text for the format from i on. A '%' without a conversion is printed as it stands. */
  function Render(s: string, i: nat, ap: nat, a: Args): string
    requires i <= |s|
    decreases |s| - i
  {
    if At(s, i) == '\0' then []
    else if s[i] != '%' then [s[i]] + Render(s, i + 1, ap, a)
    else
      var d := Scan(s, i + 1, PLAIN, ap, a);
      var c := At(s, d.end);
      if IsConversion(c) then
        Conversion(c, d.flags, a.slots(d.ap), a) + Render(s, d.end + 1, d.ap + Taken(c), a)
      else
        "%" + Render(s, i + 1, d.ap, a)
  }

  /** sprintbuf: characters go to mem from start up to end, where the NUL will be; what does
      not fit is only counted. */
  class SprintBuf {
    const mem: array<char>
    const start: nat
    const end: nat
    var buf: nat
    var cnt: nat
    ghost var emitted: string
    ghost const was: seq<char>

    constructor (m: array<char>, s: nat, e: nat)
      requires s <= e < m.Length
      ensures Valid() && emitted == "" && mem == m && start == s && end == e && was == m[..]
    {
      mem, start, end, buf, cnt := m, s, e, s, 0;
      emitted, was := "", m[..];
    }

    ghost predicate Valid()
      reads this, mem
    {
      && start <= buf <= end < mem.Length == |was|
      && cnt == |emitted| && buf - start == Min(cnt, end - start)
      && mem[start..buf] == emitted[..buf - start]
      && forall k :: 0 <= k < mem.Length && !(start <= k < buf) ==> mem[k] == was[k]
    }

    /** sprintputch */
    method Putch(ch: char)
      requires Valid()
      modifies this, mem
      ensures Valid() && emitted == old(emitted) + [ch]
    {
      cnt := cnt + 1;
      if buf < end {
        mem[buf] := ch;
        buf := buf + 1;
      }
      emitted := emitted + [ch];
    }

    /** The NUL at the end. */
    method Finish() returns (r: int)
      requires Valid()
      modifies mem
      ensures r == |emitted| && mem.Length == |was|
      ensures var n := Min(|emitted|, end - start);
              && n >= 0 && start + n < mem.Length && mem[start..start + n] == emitted[..n] && mem[start + n] == '\0'
              && forall k :: 0 <= k < mem.Length && !(start <= k <= start + n) ==> mem[k] == was[k]
    {
      mem[buf] := '\0';
      r := cnt;
    }
  }

  /** putch, n times if n is positive. */
  method PutMany(b: SprintBuf, ch: char, n: int)
    requires b.Valid()
    modifies b, b.mem
    ensures b.Valid() && b.emitted == old(b.emitted) + Repeat(ch, n)
  {
    var left := n;
    while left > 0
      invariant b.Valid() && left <= n
      invariant b.emitted == old(b.emitted) + Repeat(ch, if left > 0 then n - left else n)
    {
      b.Putch(ch);
      left := left - 1;
    }
  }

  method PutText(b: SprintBuf, text: string)
    requires b.Valid()
    modifies b, b.mem
    ensures b.Valid() && b.emitted == old(b.emitted) + text
  {
    var i := 0;
    while i < |text|
      invariant 0 <= i <= |text| && b.Valid() && b.emitted == old(b.emitted) + text[..i]
    {
      b.Putch(text[i]);
      i := i + 1;
    }
  }

  /** printnum prints the more significant digits first, by recursion; the padding comes out
      of the innermost call. */
  method PrintNum(b: SprintBuf, num: nat, base: nat, width: int, padc: char)
    requires b.Valid() && 2 <= base <= 16
    modifies b, b.mem
    ensures b.Valid() && b.emitted == old(b.emitted) + Padded(num, base, width, padc)
    decreases num
  {
    hide Digits, Padded, SprintBuf.Valid, Repeat;
    PaddedStep(num, base, width, padc);
    var result, mod := num / base, num % base;
    if num >= base {
      PrintNum(b, result, base, width - 1, padc);
    } else {
      PutMany(b, padc, width - 1);
    }
    b.Putch(DIGITS[mod]);
  }

  lemma PaddedStep(num: nat, base: nat, width: int, padc: char)
    requires 2 <= base <= 16
    ensures num % base < base
    ensures num < base ==> num % base == num
    ensures num < base ==> Padded(num, base, width, padc) == Repeat(padc, width - 1) + [DIGITS[num]]
    ensures num >= base ==> 0 <= num / base < num
    ensures num >= base ==>
              Padded(num, base, width, padc) == Padded(num / base, base, width - 1, padc) + [DIGITS[num % base]]
  {
    if num >= base {
      Division(num, base);
    }
  }

  method PrintSigned(b: SprintBuf, v: int, width: int, padc: char)
    requires b.Valid()
    modifies b, b.mem
    ensures b.Valid() && b.emitted == old(b.emitted) + Signed(v, width, padc)
  {
    hide Padded, SprintBuf.Valid;
    if v < 0 {
      b.Putch('-');
      PrintNum(b, -v, 10, width, padc);
    } else {
      PrintNum(b, v, 10, width, padc);
    }
  }

  /** strnlen, for a limit that is a size_t and therefore huge when it was negative. */
  method Strnlen(s: CString, limit: int) returns (cnt: nat)
    ensures cnt == Shown(s, limit)
  {
    cnt := 0;
    while (limit < 0 || cnt < limit) && At(s, cnt) != '\0'
      invariant cnt <= Shown(s, limit)
      decreases |s| - cnt
    {
      cnt := cnt + 1;
    }
  }

  lemma {:induction false} MaskedSnoc(s: string, p: nat, alt: bool)
    requires p < |s|
    ensures Masked(s[..p + 1], alt) == Masked(s[..p], alt) + [if alt && !Printable(s[p]) then '?' else s[p]]
  {
    if p > 0 {
      MaskedSnoc(s[1..], p - 1, alt);
      assert s[1..][..p] == s[..p + 1][1..] && s[1..][..p - 1] == s[..p][1..];
    }
  }

  /** The middle loop of "%s". */
  method ShowChars(b: SprintBuf, s: CString, f: Flags)
    requires b.Valid()
    modifies b, b.mem
    ensures b.Valid() && b.emitted == old(b.emitted) + Masked(s[..Shown(s, f.precision)], f.alt)
  {
    hide SprintBuf.Valid;
    var p, precision := 0, f.precision;
    while At(s, p) != '\0' && (precision < 0 || precision > 0)
      invariant p <= Shown(s, f.precision) && b.Valid()
      invariant precision == if f.precision < 0 then f.precision else f.precision - p
      invariant b.emitted == old(b.emitted) + Masked(s[..p], f.alt)
      decreases |s| - p
    {
      MaskedSnoc(s, p, f.alt);
      if precision > 0 {
        precision := precision - 1;
      }
      b.Putch(if f.alt && !Printable(s[p]) then '?' else s[p]);
      p := p + 1;
    }
  }

  /** "%s": width counts down while characters are shown, and what is left of it is filled up. */
  method PrintString(b: SprintBuf, s: CString, f: Flags)
    requires b.Valid()
    modifies b, b.mem
    ensures b.Valid() && b.emitted == old(b.emitted) + StringText(s, f)
  {
    hide SprintBuf.Valid, Masked;
    var width := f.width;
    if width > 0 && f.padc != '-' {
      var n := Strnlen(s, f.precision);
      width := width - n;
      PutMany(b, f.padc, width);
      width := Min(width, 0);
    }
    ShowChars(b, s, f);
    width := width - Shown(s, f.precision);
    PutMany(b, ' ', width);
  }

  /** The number of a width or precision field. */
  method ReadNumber(s: string, i: nat) returns (n: int, j: nat)
    requires i < |s| && '1' <= s[i] <= '9'
    ensures j == NumberEnd(s, i + 1) && n == Value(s[i..j], 10) && i < j <= |s|
  {
    hide Value;
    n, j := 0, i;
    var ch := s[i];
    OneDigitMore(s, i, i, 10);
    while true
      invariant i <= j < |s| && ch == s[j] && Decimal(ch) && n == Value(s[i..j], 10)
      invariant NumberEnd(s, i + 1) == NumberEnd(s, j + 1)
      decreases |s| - j
    {
      OneDigitMore(s, i, j, 10);
      n := n * 10 + (ch as int - '0' as int);
      j := j + 1;
      ch := At(s, j);
      if !Decimal(ch) { break; }
    }
  }

  /** The flags, which in the source lead back to the switch by goto. */
  method ScanFlags(s: CString, start: nat, ap0: nat, a: Args) returns (i: nat, f: Flags, ap: nat)
    requires start <= |s|
    ensures Directive(i, f, ap) == Scan(s, start, PLAIN, ap0, a) && i <= |s|
  {
    hide Value, NumberEnd;
    i, f, ap := start, PLAIN, ap0;
    while true
      invariant start <= i <= |s| && Scan(s, i, f, ap, a) == Scan(s, start, PLAIN, ap0, a)
      decreases |s| - i
    {
      var c := At(s, i);
      if c == '-' {
        f, i := f.(padc := '-'), i + 1;
      } else if c == '0' {
        f, i := f.(padc := '0'), i + 1;
      } else if '1' <= c <= '9' {
        var n;
        n, i := ReadNumber(s, i);
        f := WithNumber(f, n);
      } else if c == '*' {
        f, ap, i := WithNumber(f, Signed32(a.slots(ap))), ap + 1, i + 1;
      } else if c == '.' {
        f, i := if f.width < 0 then f.(width := 0) else f, i + 1;
      } else if c == '#' {
        f, i := f.(alt := true), i + 1;
      } else if c == 'l' {
        f, i := f.(longs := f.longs + 1), i + 1;
      } else {
        break;
      }
    }
  }

  /** The conversions of the switch. */
  method Convert(b: SprintBuf, c: char, f: Flags, x: nat, a: Args)
    requires b.Valid() && IsConversion(c)
    modifies b, b.mem
    ensures b.Valid() && b.emitted == old(b.emitted) + Conversion(c, f, x, a)
  {
    hide SprintBuf.Valid, Padded, Signed, StringText, GetInt, GetUint, Signed32;
    match c
    case 'c' => b.Putch(CharOf(Signed32(x)));
    case 'e' => PrintError(b, Signed32(x), a.errors);
    case 's' => PrintString(b, if x == 0 then "(null)" else a.strings(x), f);
    case 'd' => PrintSigned(b, GetInt(x, f), f.width, f.padc);
    case 'u' => PrintNum(b, GetUint(x, f), 10, f.width, f.padc);
    case 'o' => PrintNum(b, GetUint(x, f), 8, f.width, f.padc);
    case 'p' => {
      b.Putch('0');
      b.Putch('x');
      PrintNum(b, x % WORD, 16, f.width, f.padc);
    }
    case 'x' => PrintNum(b, GetUint(x, f), 16, f.width, f.padc);
    case _ => b.Putch('%');
  }

  method PrintError(b: SprintBuf, code: int, errors: nat -> string)
    requires b.Valid()
    modifies b, b.mem
    ensures b.Valid() && b.emitted == old(b.emitted) + ErrorText(code, errors)
  {
    hide SprintBuf.Valid, Signed;
    var err := if code < 0 then -code else code;
    if err > MAXERROR || errors(err) == "" {
      PutText(b, "error ");
      PrintSigned(b, err, -1, ' ');
    } else {
      PutText(b, errors(err));
    }
  }

  /** Between a '%' and the end of its flags there is no other '%'. */
  lemma {:induction false} FlagsHoldNoPercent(s: string, i: nat, f: Flags, ap: nat, a: Args)
    requires i <= |s|
    ensures forall k :: i <= k < Scan(s, i, f, ap, a).end ==> s[k] != '%'
    decreases |s| - i
  {
    match At(s, i)
    case '-' => FlagsHoldNoPercent(s, i + 1, f.(padc := '-'), ap, a);
    case '0' => FlagsHoldNoPercent(s, i + 1, f.(padc := '0'), ap, a);
    case '*' => FlagsHoldNoPercent(s, i + 1, WithNumber(f, Signed32(a.slots(ap))), ap + 1, a);
    case '.' => FlagsHoldNoPercent(s, i + 1, if f.width < 0 then f.(width := 0) else f, ap, a);
    case '#' => FlagsHoldNoPercent(s, i + 1, f.(alt := true), ap, a);
    case 'l' => FlagsHoldNoPercent(s, i + 1, f.(longs := f.longs + 1), ap, a);
    case c =>
      if Decimal(c) {
        var j := NumberEnd(s, i + 1);
        NumberHoldsNoPercent(s, i + 1);
        FlagsHoldNoPercent(s, j, WithNumber(f, Value(s[i..j], 10)), ap, a);
      }
  }

  lemma {:induction false} NumberHoldsNoPercent(s: string, i: nat)
    requires i <= |s|
    ensures forall k :: i <= k < NumberEnd(s, i) ==> s[k] != '%'
    decreases |s| - i
  {
    if i < |s| && Decimal(s[i]) {
      NumberHoldsNoPercent(s, i + 1);
    }
  }

  /** vprintfmt ends on every format, although an unknown escape sends it back to just after
      its '%', and emits what Render says. */
  method Vprintfmt(b: SprintBuf, fmt: CString, a: Args)
    requires b.Valid()
    modifies b, b.mem
    ensures b.Valid() && b.emitted == old(b.emitted) + Render(fmt, 0, 0, a)
  {
    hide SprintBuf.Valid, Scan, Conversion;
    var i, ap := 0, 0;
    while true
      invariant i <= |fmt| && b.Valid()
      invariant b.emitted + Render(fmt, i, ap, a) == old(b.emitted) + Render(fmt, 0, 0, a)
      decreases |fmt| - i
    {
      while At(fmt, i) != '%'
        invariant i <= |fmt| && b.Valid()
        invariant b.emitted + Render(fmt, i, ap, a) == old(b.emitted) + Render(fmt, 0, 0, a)
        decreases |fmt| - i
      {
        if At(fmt, i) == '\0' { return; }
        b.Putch(fmt[i]);
        i := i + 1;
      }
      i, ap := Escape(b, fmt, i + 1, ap, a);
    }
  }

  /** One %-escape, from the character after its '%' on. */
  method Escape(b: SprintBuf, fmt: CString, start: nat, ap0: nat, a: Args) returns (i: nat, ap: nat)
    requires b.Valid() && 0 < start <= |fmt| && fmt[start - 1] == '%'
    modifies b, b.mem
    ensures b.Valid() && start <= i <= |fmt|
    ensures b.emitted + Render(fmt, i, ap, a) == old(b.emitted) + Render(fmt, start - 1, ap0, a)
  {
    hide SprintBuf.Valid, Scan, Conversion;
    var f;
    i, f, ap := ScanFlags(fmt, start, ap0, a);
    FlagsHoldNoPercent(fmt, start, PLAIN, ap0, a);
    var c := At(fmt, i);
    if IsConversion(c) {
      Convert(b, c, f, a.slots(ap), a);
      i, ap := i + 1, ap + Taken(c);
    } else {
      b.Putch('%');
      while fmt[i - 1] != '%'
        invariant start <= i <= |fmt|
        invariant forall k :: start <= k < i ==> fmt[k] != '%'
        decreases i
      {
        i := i - 1;
      }
      assert i == start;
    }
  }

  /** vsnprintf stores as much of the text as fits, then a NUL, and nothing else, and returns
      how long the whole text is. */
  method Vsnprintf(str: array?<char>, start: nat, size: nat, fmt: CString, a: Args) returns (r: int)
    requires str != null ==> start + size <= str.Length
    modifies str
    ensures str == null || size == 0 ==> r == -E_INVAL == -3 && (str != null ==> str[..] == old(str[..]))
    ensures str != null && size > 0 ==>
              var text := Render(fmt, 0, 0, a);
              var n := Min(|text|, size - 1);
              && r == |text|
              && str[start..start + n] == text[..n] && str[start + n] == '\0'
              && forall k :: 0 <= k < str.Length && !(start <= k <= start + n) ==> str[k] == old(str[k])
  {
    hide Render, SprintBuf.Valid;
    if str == null || size == 0 {
      return -E_INVAL;
    }
    var b := new SprintBuf(str, start, start + size - 1);
    Vprintfmt(b, fmt, a);
    assert b.emitted == Render(fmt, 0, 0, a);
    r := b.Finish();
  }

  /** "%ld" prints a long so that strtol reads it back. */
  lemma LongRoundTrip(v: int, a: Args)
    requires -INT64_MAX - 1 <= v <= INT64_MAX && a.slots(0) == v % WORD
    ensures var text := Render("%ld", 0, 0, a); Parsed(text, 10) == Number(v, |text|)
  {
    hide Signed, Parsed, Value, NumberEnd;
    var s, f := "%ld", PLAIN.(longs := 1);
    assert Scan(s, 2, f, 0, a) == Directive(2, f, 0);
    assert Scan(s, 1, PLAIN, 0, a) == Directive(2, f, 0);
    assert Render(s, 3, 1, a) == [];
    assert Long(a.slots(0)) == v;
    assert Render(s, 0, 0, a) == Signed(v, -1, ' ');
    SignedRoundTrip(v, -1, ' ');
  }

  /** A format without '%' is printed as it stands. */
  lemma {:induction false} PlainText(s: CString, i: nat, ap: nat, a: Args)
    requires i <= |s| && forall k :: i <= k < |s| ==> s[k] != '%'
    ensures Render(s, i, ap, a) == s[i..]
    decreases |s| - i
  {
    if i < |s| {
      assert s[i] in s;
      PlainText(s, i + 1, ap, a);
    }
  }

  /** A "%s" field is as long as its width asks, or as what it shows if that is more; what it
      shows stands at the right end, or at the left after '-'. */
  lemma FieldWidth(s: string, f: Flags)
    ensures var t, n := StringText(s, f), Shown(s, f.precision);
            && |t| == (if f.width > n then f.width else n)
            && (if f.padc == '-' then t[..n] else t[|t| - n..]) == Masked(s[..n], f.alt)
  {
    hide Masked;
    var t, n := StringText(s, f), Shown(s, f.precision);
    assert f.padc == '-' ==> t == Masked(s[..n], f.alt) + Repeat(' ', f.width - n);
    assert f.padc != '-' ==> t == Repeat(f.padc, f.width - n) + Masked(s[..n], f.alt);
  }

  /** Masking changes exactly the characters that cannot be shown. */
  lemma {:induction false} MaskedAt(s: string, alt: bool, k: nat)
    requires k < |s|
    ensures Masked(s, alt)[k] == if alt && !Printable(s[k]) then '?' else s[k]
  {
    if k > 0 {
      MaskedAt(s[1..], alt, k - 1);
    }
  }
}
