/**
  What a format means, said without the functions that carry it out: which flags an escape
  gives, and for each conversion the characters that appear (lab5/libs/printfmt.c:125-285).
 */
module Formats {
  import opened Numerals
  import opened Printf

  datatype Option<T> = None | Some(value: T)

  /** The pieces of an escape between its '%' and its conversion. */
  datatype Token = Minus | Zero | Dot | Hash | Ell | Star | Number(digits: string)

  /** A number starts with a digit from '1' to '9'; otherwise it would be the flag '0'. */
  predicate Proper(t: Token) {
    t.Number? ==>
      t.digits != [] && t.digits[0] != '0' && forall k :: 0 <= k < |t.digits| ==> '0' <= t.digits[k] <= '9'
  }

  function Text(t: Token): string {
    match t
    case Minus => "-"
    case Zero => "0"
    case Dot => "."
    case Hash => "#"
    case Ell => "l"
    case Star => "*"
    case Number(digits) => digits
  }

  function Spelling(ts: seq<Token>): string {
    if ts == [] then [] else Spelling(ts[..|ts| - 1]) + Text(ts[|ts| - 1])
  }

  /** The pieces are the longest possible: a digit behind a number would belong to it. */
  predicate Separate(ts: seq<Token>) {
    && (forall k :: 0 <= k < |ts| ==> Proper(ts[k]))
    && forall j, k :: 0 <= j < |ts| && k == j + 1 && k < |ts| && ts[j].Number? ==> !ts[k].Number? && ts[k] != Zero
  }

  function Stars(ts: seq<Token>): nat {
    multiset(ts)[Star]
  }

  // ---- what the pieces mean ----

  /** The last of '-' and '0' decides. */
  ghost predicate PadIs(ts: seq<Token>, padc: char) {
    && (Minus !in ts && Zero !in ts ==> padc == ' ')
    && forall k :: 0 <= k < |ts| && ts[k] in {Minus, Zero} && Minus !in ts[k + 1..] && Zero !in ts[k + 1..] ==>
         padc == if ts[k] == Minus then '-' else '0'
  }

  /** The number that piece k gives, in digits or as the next argument, which is an int. */
  function Given(ts: seq<Token>, k: nat, ap: nat, a: Args): Option<int>
    requires k < |ts|
  {
    match ts[k]
    case Number(digits) => Some(Value(digits, 10))
    case Star => Some(Signed32(a.slots(ap + Stars(ts[..k]))))
    case _ => None
  }

  /** Piece k makes the width a number from 0 on, if it is not one yet. */
  predicate Settles(ts: seq<Token>, k: nat, ap: nat, a: Args)
    requires k < |ts|
  {
    ts[k] == Dot || (Given(ts, k, ap, a).Some? && Given(ts, k, ap, a).value >= 0)
  }

  ghost predicate LastGiven(ts: seq<Token>, k: int, ap: nat, a: Args) {
    0 <= k < |ts| && Given(ts, k, ap, a).Some? && forall j :: k < j < |ts| ==> Given(ts, j, ap, a).None?
  }

  ghost predicate FirstSettles(ts: seq<Token>, k: int, ap: nat, a: Args) {
    0 <= k < |ts| && Settles(ts, k, ap, a) && forall j :: 0 <= j < k ==> !Settles(ts, j, ap, a)
  }

  ghost predicate NothingSettles(ts: seq<Token>, ap: nat, a: Args) {
    forall k :: 0 <= k < |ts| ==> !Settles(ts, k, ap, a)
  }

  /** The last number behind piece k is the precision; without one nothing is limited. */
  ghost predicate PrecisionIs(ts: seq<Token>, k: int, precision: int, ap: nat, a: Args)
    requires 0 <= k
  {
    || (precision == -1 && forall j :: k < j < |ts| ==> Given(ts, j, ap, a).None?)
    || exists j :: k < j && LastGiven(ts, j, ap, a) && precision == Given(ts, j, ap, a).value
  }

  /** The first piece that is '.' or a number from 0 on is the width, '.' standing for 0, and numbers
      behind it are precisions.  Without such a piece neither limits anything. */
  ghost predicate SizesAre(ts: seq<Token>, width: int, precision: int, ap: nat, a: Args) {
    || (NothingSettles(ts, ap, a) && width < 0 && precision == -1)
    || exists k :: FirstSettles(ts, k, ap, a) && PrecisionIs(ts, k, precision, ap, a)
                   && width == if ts[k] == Dot then 0 else Given(ts, k, ap, a).value
  }

  ghost predicate Says(ts: seq<Token>, f: Flags, ap: nat, a: Args) {
    && f.longs == multiset(ts)[Ell] && (f.alt <==> Hash in ts)
    && PadIs(ts, f.padc) && SizesAre(ts, f.width, f.precision, ap, a)
  }

  // ---- the scan finds the pieces ----

  function Applied(f: Flags, ts: seq<Token>, k: nat, ap: nat, a: Args): Flags
    requires k < |ts|
  {
    match ts[k]
    case Minus => f.(padc := '-')
    case Zero => f.(padc := '0')
    case Dot => if f.width < 0 then f.(width := 0) else f
    case Hash => f.(alt := true)
    case Ell => f.(longs := f.longs + 1)
    case _ => WithNumber(f, Given(ts, k, ap, a).value)
  }

  function Folded(ts: seq<Token>, ap: nat, a: Args): Flags {
    if ts == [] then PLAIN else Applied(Folded(ts[..|ts| - 1], ap, a), ts, |ts| - 1, ap, a)
  }

  lemma {:induction false} NumberEnds(s: string, i: nat, j: nat)
    requires i <= j <= |s| && (forall k :: i <= k < j ==> '0' <= s[k] <= '9') && !('0' <= At(s, j) <= '9')
    ensures NumberEnd(s, i) == j
    decreases j - i
  {
    if i < j { NumberEnds(s, i + 1, j); }
  }

  /** One piece at position i. */
  lemma ScanPiece(s: string, i: nat, f: Flags, ts: seq<Token>, k: nat, ap: nat, a: Args)
    requires k < |ts| && Proper(ts[k])
    requires i + |Text(ts[k])| <= |s| && s[i..i + |Text(ts[k])|] == Text(ts[k])
    requires ts[k].Number? ==> !('0' <= At(s, i + |Text(ts[k])|) <= '9')
    ensures var d := if ts[k] == Star then 1 else 0;
            Scan(s, i, f, ap + Stars(ts[..k]), a)
            == Scan(s, i + |Text(ts[k])|, Applied(f, ts, k, ap, a), ap + Stars(ts[..k]) + d, a)
  {
    hide Value, NumberEnd;
    var t := Text(ts[k]);
    assert s[i] == t[0] by { assert s[i..i + |t|][0] == s[i]; }
    if ts[k].Number? {
      forall m | i < m < i + |t| ensures '0' <= s[m] <= '9' { assert s[m] == t[m - i]; }
      NumberEnds(s, i + 1, i + |t|);
    }
  }

  lemma {:induction false} SpellingPrefix(ts: seq<Token>, k: nat)
    requires k < |ts|
    ensures Spelling(ts[..k + 1]) == Spelling(ts[..k]) + Text(ts[k])
    ensures |Spelling(ts[..k + 1])| <= |Spelling(ts)|
    ensures Spelling(ts)[..|Spelling(ts[..k + 1])|] == Spelling(ts[..k + 1])
    decreases |ts|
  {
    assert ts[..k + 1][..k] == ts[..k];
    if k + 1 < |ts| {
      SpellingPrefix(ts[..|ts| - 1], k);
      assert ts[..|ts| - 1][..k + 1] == ts[..k + 1] && ts[..|ts| - 1][..k] == ts[..k];
    } else {
      assert ts[..k + 1] == ts;
    }
  }

  lemma StarsStep(ts: seq<Token>, k: nat)
    requires k < |ts|
    ensures Stars(ts[..k + 1]) == Stars(ts[..k]) + if ts[k] == Star then 1 else 0
  {
    assert ts[..k + 1] == ts[..k] + [ts[k]];
  }

  /** What piece j gives does not depend on those behind it. */
  lemma GivenBefore(ts: seq<Token>, n: nat, ap: nat, a: Args)
    requires n <= |ts|
    ensures forall j :: 0 <= j < n ==> Given(ts[..n], j, ap, a) == Given(ts, j, ap, a)
    ensures forall j :: 0 <= j < n ==> Settles(ts[..n], j, ap, a) == Settles(ts, j, ap, a)
  {
    hide Value, Signed32;
    forall j | 0 <= j < n ensures Given(ts[..n], j, ap, a) == Given(ts, j, ap, a) {
      assert ts[..n][..j] == ts[..j];
    }
  }

  lemma PadGrows(ts: seq<Token>, x: Token, padc: char)
    requires PadIs(ts, padc)
    ensures PadIs(ts + [x], if x == Minus then '-' else if x == Zero then '0' else padc)
  {
    var next := ts + [x];
    forall k | 0 <= k < |next| && next[k] in {Minus, Zero} && Minus !in next[k + 1..] && Zero !in next[k + 1..]
      ensures k < |ts| ==> x !in {Minus, Zero} && next[k + 1..] == ts[k + 1..] + [x]
    {
      if k < |ts| {
        assert next[k + 1..] == ts[k + 1..] + [x];
        assert x in next[k + 1..];
      }
    }
  }

  /** One more piece, before anything has settled the width and after. */
  lemma SizesStart(p: seq<Token>, q: seq<Token>, f: Flags, g: Flags, ap: nat, a: Args)
    requires |q| == |p| + 1 && q[..|p|] == p && g == Applied(f, q, |p|, ap, a)
    requires NothingSettles(p, ap, a) && f.width < 0 && f.precision == -1
    ensures SizesAre(q, g.width, g.precision, ap, a)
  {
    hide Value, Signed32;
    GivenBefore(q, |p|, ap, a);
    hide Given;
    if Settles(q, |p|, ap, a) {
      assert FirstSettles(q, |p|, ap, a) && PrecisionIs(q, |p|, g.precision, ap, a);
    } else {
      assert NothingSettles(q, ap, a);
    }
  }

  lemma SizesGoOn(p: seq<Token>, q: seq<Token>, k: int, f: Flags, g: Flags, ap: nat, a: Args)
    requires |q| == |p| + 1 && q[..|p|] == p && g == Applied(f, q, |p|, ap, a)
    requires FirstSettles(p, k, ap, a) && PrecisionIs(p, k, f.precision, ap, a)
    requires f.width == if p[k] == Dot then 0 else Given(p, k, ap, a).value
    ensures FirstSettles(q, k, ap, a) && PrecisionIs(q, k, g.precision, ap, a)
    ensures g.width == if q[k] == Dot then 0 else Given(q, k, ap, a).value
  {
    StillFirst(p, q, k, ap, a);
    PrecisionGoesOn(p, q, k, f.precision, ap, a);
    hide FirstSettles, PrecisionIs, Value, Signed32;
    GivenBefore(q, |p|, ap, a);
    WidthStays(p, k, f, ap, a);
  }

  lemma WidthStays(p: seq<Token>, k: int, f: Flags, ap: nat, a: Args)
    requires FirstSettles(p, k, ap, a) && f.width == if p[k] == Dot then 0 else Given(p, k, ap, a).value
    ensures 0 <= k < |p| && f.width >= 0
  {
  }

  lemma StillFirst(p: seq<Token>, q: seq<Token>, k: int, ap: nat, a: Args)
    requires |q| == |p| + 1 && q[..|p|] == p && FirstSettles(p, k, ap, a)
    ensures FirstSettles(q, k, ap, a)
  {
    hide Settles;
    GivenBefore(q, |p|, ap, a);
  }

  lemma PrecisionGoesOn(p: seq<Token>, q: seq<Token>, k: int, precision: int, ap: nat, a: Args)
    requires |q| == |p| + 1 && q[..|p|] == p && 0 <= k < |p| && PrecisionIs(p, k, precision, ap, a)
    ensures var x := Given(q, |p|, ap, a); PrecisionIs(q, k, if x.Some? then x.value else precision, ap, a)
  {
    hide Given, Settles;
    GivenBefore(q, |p|, ap, a);
    var n := |p|;
    if Given(q, n, ap, a).Some? {
      assert LastGiven(q, n, ap, a);
    } else if !(forall j :: k < j < n ==> Given(p, j, ap, a).None?) {
      var j :| k < j && LastGiven(p, j, ap, a) && precision == Given(p, j, ap, a).value;
      assert LastGiven(q, j, ap, a);
    }
  }

  lemma {:induction false} FoldedSays(ts: seq<Token>, ap: nat, a: Args)
    ensures Says(ts, Folded(ts, ap, a), ap, a)
  {
    hide PadIs, SizesAre;
    if ts == [] {
      NoPieces(ap, a);
    } else {
      var n := |ts| - 1;
      var p, f, g := ts[..n], Folded(ts[..n], ap, a), Folded(ts, ap, a);
      FoldedSays(p, ap, a);
      assert ts == p + [ts[n]];
      PadGrows(p, ts[n], f.padc);
      SizesGrow(p, ts, f, g, ap, a);
    }
  }

  lemma NoPieces(ap: nat, a: Args)
    ensures PadIs([], ' ') && SizesAre([], -1, -1, ap, a)
  {
    assert NothingSettles([], ap, a);
  }

  lemma SizesGrow(p: seq<Token>, q: seq<Token>, f: Flags, g: Flags, ap: nat, a: Args)
    requires |q| == |p| + 1 && q[..|p|] == p && g == Applied(f, q, |p|, ap, a)
    requires SizesAre(p, f.width, f.precision, ap, a)
    ensures SizesAre(q, g.width, g.precision, ap, a)
  {
    hide Value, Signed32, Applied, PrecisionIs;
    if NothingSettles(p, ap, a) && f.width < 0 && f.precision == -1 {
      SizesStart(p, q, f, g, ap, a);
    } else {
      var k :| FirstSettles(p, k, ap, a) && PrecisionIs(p, k, f.precision, ap, a)
               && f.width == if p[k] == Dot then 0 else Given(p, k, ap, a).value;
      SizesGoOn(p, q, k, f, g, ap, a);
    }
  }

  /** No piece of an escape starts with c. */
  predicate EndsFlags(c: char) {
    c !in "-0.#l*" && !('1' <= c <= '9')
  }

  /** An escape: '%', its pieces, and a character that is none. */
  ghost predicate Escapes(s: string, i: nat, ts: seq<Token>) {
    && Separate(ts) && i + 1 + |Spelling(ts)| <= |s| && s[i] == '%'
    && s[i + 1..i + 1 + |Spelling(ts)|] == Spelling(ts) && EndsFlags(At(s, Behind(i, ts)))
  }

  /** Where the conversion stands. */
  function Behind(i: nat, ts: seq<Token>): nat {
    i + 1 + |Spelling(ts)|
  }

  lemma SliceOf(s: string, at: nat, w: string, j: nat, n: nat)
    requires at + |w| <= |s| && s[at..at + |w|] == w && j + n <= |w|
    ensures s[at + j..at + j + n] == w[j..j + n]
    ensures n > 0 ==> s[at + j] == w[j]
  {
    forall m | 0 <= m < |w| ensures w[m] == s[at + m] {
      assert s[at..at + |w|][m] == s[at + m];
    }
  }

  lemma LastPart(w: string, u: string, t: string)
    requires |u| + |t| <= |w| && w[..|u| + |t|] == u + t
    ensures w[|u|..|u| + |t|] == t
  {
    assert w[|u|..|u| + |t|] == w[..|u| + |t|][|u|..];
  }

  /** Piece k in the spelling of all. */
  lemma PieceInSpelling(ts: seq<Token>, k: nat)
    requires k < |ts|
    ensures var j, t := |Spelling(ts[..k])|, Text(ts[k]);
            |Spelling(ts[..k + 1])| == j + |t| <= |Spelling(ts)| && Spelling(ts)[j..j + |t|] == t
  {
    SpellingPrefix(ts, k);
    hide Spelling, Text;
    LastPart(Spelling(ts), Spelling(ts[..k]), Text(ts[k]));
  }

  /** Piece k stands in its place. */
  lemma PieceAt(s: string, i: nat, ts: seq<Token>, k: nat)
    requires Escapes(s, i, ts) && k < |ts|
    ensures var j := Behind(i, ts[..k]);
            && j + |Text(ts[k])| == Behind(i, ts[..k + 1]) <= |s| && s[j..j + |Text(ts[k])|] == Text(ts[k])
            && (Text(ts[k]) != [] ==> s[j] == Text(ts[k])[0])
  {
    hide Spelling, Text, Separate, EndsFlags;
    PieceInSpelling(ts, k);
    SliceOf(s, i + 1, Spelling(ts), |Spelling(ts[..k])|, |Text(ts[k])|);
  }

  lemma NumberIsWhole(s: string, i: nat, ts: seq<Token>, k: nat)
    requires Escapes(s, i, ts) && k < |ts| && ts[k].Number?
    ensures !('0' <= At(s, Behind(i, ts[..k + 1])) <= '9')
  {
    hide Spelling;
    if k + 1 < |ts| {
      PieceAt(s, i, ts, k + 1);
      assert Proper(ts[k + 1]);
    } else {
      assert ts[..k + 1] == ts;
    }
  }

  lemma {:induction false} ScanPieces(s: string, i: nat, ts: seq<Token>, k: nat, ap: nat, a: Args)
    requires Escapes(s, i, ts) && k <= |ts|
    ensures Behind(i, ts[..k]) <= |s|
    ensures Scan(s, i + 1, PLAIN, ap, a)
         == Scan(s, Behind(i, ts[..k]), Folded(ts[..k], ap, a), ap + Stars(ts[..k]), a)
  {
    hide Scan, Escapes, Separate, Behind, Folded, Stars, Applied, Text, Proper;
    if k > 0 {
      var n := k - 1;
      ScanPieces(s, i, ts, n, ap, a);
      PieceAt(s, i, ts, n);
      IsProper(s, i, ts, n);
      if ts[n].Number? { NumberIsWhole(s, i, ts, n); }
      ScanPiece(s, Behind(i, ts[..n]), Folded(ts[..n], ap, a), ts, n, ap, a);
      StarsStep(ts, n);
      FoldedStep(ts, n, ap, a);
    } else {
      NoPiecesYet(s, i, ts, ap, a);
    }
  }

  lemma NoPiecesYet(s: string, i: nat, ts: seq<Token>, ap: nat, a: Args)
    requires Escapes(s, i, ts)
    ensures Behind(i, ts[..0]) == i + 1 <= |s| && Folded(ts[..0], ap, a) == PLAIN && Stars(ts[..0]) == 0
  {
  }

  lemma IsProper(s: string, i: nat, ts: seq<Token>, k: nat)
    requires Escapes(s, i, ts) && k < |ts|
    ensures Proper(ts[k])
  {
  }

  lemma FoldedStep(ts: seq<Token>, k: nat, ap: nat, a: Args)
    requires k < |ts|
    ensures Folded(ts[..k + 1], ap, a) == Applied(Folded(ts[..k], ap, a), ts, k, ap, a)
  {
    hide Value, Signed32;
    var p := ts[..k + 1];
    assert p[..k] == ts[..k];
    GivenBefore(ts, k + 1, ap, a);
  }

  /** Main result: what an escape says, whatever its pieces are. */
  lemma EscapeSays(s: string, i: nat, ts: seq<Token>, ap: nat, a: Args) returns (f: Flags)
    requires Escapes(s, i, ts)
    ensures Scan(s, i + 1, PLAIN, ap, a) == Directive(Behind(i, ts), f, ap + Stars(ts)) && Says(ts, f, ap, a)
  {
    hide Says, Folded;
    ScanPieces(s, i, ts, |ts|, ap, a);
    assert ts[..|ts|] == ts;
    f := Folded(ts, ap, a);
    FoldedSays(ts, ap, a);
  }

  lemma OnePieceMore(s: string, from: nat, j: nat, ts: seq<Token>, t: Token)
    requires from <= j && j + |Text(t)| <= |s| && s[from..j] == Spelling(ts) && s[j..j + |Text(t)|] == Text(t)
    requires Separate(ts) && Proper(t) && Text(t) != []
    requires ts != [] && ts[|ts| - 1].Number? ==> !('0' <= At(s, j) <= '9')
    ensures s[from..j + |Text(t)|] == Spelling(ts + [t]) && Separate(ts + [t])
  {
    hide Spelling, Separate, Proper, Text;
    SpellingMore(ts, t);
    FirstChar(s, j, Text(t));
    SeparateMore(ts, t);
    assert s[from..j + |Text(t)|] == s[from..j] + s[j..j + |Text(t)|];
  }

  lemma SpellingMore(ts: seq<Token>, t: Token)
    ensures Spelling(ts + [t]) == Spelling(ts) + Text(t)
  {
    hide Text;
    assert (ts + [t])[..|ts|] == ts;
  }

  lemma SeparateMore(ts: seq<Token>, t: Token)
    requires Separate(ts) && Proper(t) && Text(t) != []
    requires ts != [] && ts[|ts| - 1].Number? ==> !('0' <= Text(t)[0] <= '9')
    ensures Separate(ts + [t])
  {
    var next := ts + [t];
    assert t.Number? ==> '0' <= Text(t)[0] <= '9';
    assert forall k :: 0 <= k < |ts| ==> next[k] == ts[k];
  }

  lemma FirstChar(s: string, j: nat, t: string)
    requires t != [] && j + |t| <= |s| && s[j..j + |t|] == t
    ensures At(s, j) == t[0]
  {
    assert s[j] == s[j..j + |t|][0];
  }

  /** Which piece starts at j. */
  lemma PieceFrom(s: string, j: nat) returns (t: Token)
    requires j <= |s| && !EndsFlags(At(s, j))
    ensures Proper(t) && Text(t) != [] && j + |Text(t)| <= |s| && s[j..j + |Text(t)|] == Text(t)
    ensures t.Number? ==> !('0' <= At(s, j + |Text(t)|) <= '9')
  {
    match s[j] {
      case '-' => t := Minus;
      case '0' => t := Zero;
      case '.' => t := Dot;
      case '#' => t := Hash;
      case 'l' => t := Ell;
      case '*' => t := Star;
      case _ =>
        var k := j + 1;
        while '0' <= At(s, k) <= '9'
          invariant j < k <= |s| && forall m :: j <= m < k ==> '0' <= s[m] <= '9'
          decreases |s| - k
        {
          k := k + 1;
        }
        t := Token.Number(s[j..k]);
    }
  }

  /** Behind every '%' stands some sequence of pieces. */
  lemma EveryEscapeHasPieces(s: string, i: nat) returns (ts: seq<Token>)
    requires i < |s| && s[i] == '%'
    ensures Escapes(s, i, ts)
  {
    hide Separate, Spelling, Proper, Text, EndsFlags;
    ts := [];
    var j := i + 1;
    NoPieceYet(s, i);
    while !EndsFlags(At(s, j))
      invariant i < j <= |s| && s[i + 1..j] == Spelling(ts) && Separate(ts)
      invariant ts != [] && ts[|ts| - 1].Number? ==> !('0' <= At(s, j) <= '9')
      decreases |s| - j
    {
      var t := PieceFrom(s, j);
      OnePieceMore(s, i + 1, j, ts, t);
      ts, j := ts + [t], j + |Text(t)|;
    }
  }

  lemma NoPieceYet(s: string, i: nat)
    requires i < |s|
    ensures s[i + 1..i + 1] == Spelling([]) && Separate([])
  {
  }

  // ---- what the conversions write ----

  /** The escape at i comes out as t and takes so many arguments besides those of its stars. */
  ghost predicate Renders(s: string, i: nat, ts: seq<Token>, ap: nat, a: Args, t: string, taken: nat) {
    && Behind(i, ts) < |s|
    && Render(s, i, ap, a) == t + Render(s, Behind(i, ts) + 1, ap + Stars(ts) + taken, a)
  }

  /** u at the right end of t, which has the width at least, filled up with padc on the left. */
  ghost predicate Field(t: string, u: string, width: int, padc: char) {
    && |t| == (if width > |u| then width else |u|)
    && t[|t| - |u|..] == u && forall k :: 0 <= k < |t| - |u| ==> t[k] == padc
  }

  /** The argument that the conversion takes. */
  function Slot(ts: seq<Token>, ap: nat, a: Args): nat {
    a.slots(ap + Stars(ts))
  }

  /** y is what x is in n values around 0, in two's complement. */
  ghost predicate IsSigned(x: int, y: int, n: int)
    requires n > 0
  {
    -n <= 2 * y < n && (x - y) % n == 0
  }

  lemma HalfMultiple(k: int)
    ensures k * HALF % HALF == 0
  {
  }

  lemma Signed32Is(x: nat)
    ensures IsSigned(x, Signed32(x), 0x1_0000_0000)
  {
    var k := if x % HALF < HALF / 2 then x / HALF else x / HALF + 1;
    assert x - Signed32(x) == k * HALF;
    HalfMultiple(k);
  }

  lemma PaddedIsField(n: nat, base: nat, width: int, padc: char)
    requires 2 <= base <= 16
    ensures Numeral(Digits(n, base), n, base) && Field(Padded(n, base, width, padc), Digits(n, base), width, padc)
  {
    DigitsAreNumeral(n, base);
    hide Numeral, Digits, Field;
    FilledUp(Digits(n, base), width, padc);
  }

  lemma EscapeRenders(s: string, i: nat, ts: seq<Token>, ap: nat, a: Args) returns (f: Flags)
    requires Escapes(s, i, ts) && IsConversion(At(s, Behind(i, ts)))
    ensures Says(ts, f, ap, a)
    ensures var c := At(s, Behind(i, ts)); Renders(s, i, ts, ap, a, Conversion(c, f, Slot(ts, ap, a), a), Taken(c))
  {
    hide Says, Conversion, Scan;
    f := EscapeSays(s, i, ts, ap, a);
  }

  /** "%u", "%o" and "%x": the numeral in base 10, 8 or 16 of the argument modulo 2^32, or 2^64
      after an 'l'; without '-' strtol reads it back. */
  lemma NumberField(s: string, i: nat, ts: seq<Token>, ap: nat, a: Args) returns (f: Flags, t: string, u: string)
    requires Escapes(s, i, ts) && At(s, Behind(i, ts)) in {'u', 'o', 'x'}
    ensures Says(ts, f, ap, a) && Renders(s, i, ts, ap, a, t, 1)
    ensures var c := At(s, Behind(i, ts));
            var base := if c == 'u' then 10 else if c == 'o' then 8 else 16;
            var n := Slot(ts, ap, a) % if Ell in ts then 0x1_0000_0000_0000_0000 else 0x1_0000_0000;
            && Numeral(u, n, base) && Field(t, u, f.width, f.padc)
            && (f.padc != '-' ==> Parsed(t, base).end == |t| && Parsed(t, base).value % 0x1_0000_0000_0000_0000 == n)
  {
    hide Says, Renders, Escapes, Padded, Digits, Parsed, Numeral, Field;
    f := EscapeRenders(s, i, ts, ap, a);
    var c, x := At(s, Behind(i, ts)), Slot(ts, ap, a);
    LongsAndPad(ts, f, ap, a);
    var n := GetUint(x, f);
    var base := if c == 'u' then 10 else if c == 'o' then 8 else 16;
    t, u := Conversion(c, f, x, a), Digits(n, base);
    PaddedIsField(n, base, f.width, f.padc);
    if f.padc != '-' { RoundTrip(n, base, f.width, f.padc); }
  }

  lemma LongsAndPad(ts: seq<Token>, f: Flags, ap: nat, a: Args)
    requires Says(ts, f, ap, a)
    ensures f.longs > 0 <==> Ell in ts
    ensures f.padc in {' ', '0', '-'}
  {
    hide SizesAre;
    var k := |ts|;
    while k > 0 && ts[k - 1] !in {Minus, Zero}
      invariant 0 <= k <= |ts| && Minus !in ts[k..] && Zero !in ts[k..]
    {
      assert ts[k - 1..] == [ts[k - 1]] + ts[k..];
      k := k - 1;
    }
    assert k == 0 ==> ts[0..] == ts;
  }

  /** "%d": the sign, and then the numeral of the magnitude, padded in between; without '-' strtol
      reads it back if and only if no blanks stand there. */
  lemma SignedField(s: string, i: nat, ts: seq<Token>, ap: nat, a: Args)
    returns (f: Flags, v: int, t: string, m: string, u: string)
    requires Escapes(s, i, ts) && At(s, Behind(i, ts)) == 'd'
    ensures Says(ts, f, ap, a) && Renders(s, i, ts, ap, a, t, 1)
    ensures IsSigned(Slot(ts, ap, a), v, if Ell in ts then 0x1_0000_0000_0000_0000 else 0x1_0000_0000)
    ensures t == (if v < 0 then "-" else "") + m && Field(m, u, f.width, f.padc)
    ensures Numeral(u, if v < 0 then -v else v, 10)
    ensures f.padc != '-' ==> (Parsed(t, 10) == Numerals.Number(v, |t|) <==> v >= 0 || f.padc == '0' || f.width <= |u|)
  {
    hide Says, Renders, Escapes, Padded, Digits, Parsed, Numeral, Field, Long, Signed32, IsSigned;
    f := EscapeRenders(s, i, ts, ap, a);
    var x := Slot(ts, ap, a);
    LongsAndPad(ts, f, ap, a);
    v := GetInt(x, f);
    SignedIs(x, f);
    var n: nat := if v < 0 then -v else v;
    t, m, u := Conversion('d', f, x, a), Padded(n, 10, f.width, f.padc), Digits(n, 10);
    PaddedIsField(n, 10, f.width, f.padc);
    if f.padc != '-' { SignedRoundTrip(v, f.width, f.padc); }
  }

  lemma SignedIs(x: nat, f: Flags)
    ensures IsSigned(x, GetInt(x, f), if f.longs > 0 then 0x1_0000_0000_0000_0000 else 0x1_0000_0000)
    ensures -INT64_MAX - 1 <= GetInt(x, f) <= INT64_MAX
  {
    LongIs(x);
    Signed32Is(x);
  }

  /** "%p": "0x" and the numeral of the whole slot in base 16. */
  lemma PointerField(s: string, i: nat, ts: seq<Token>, ap: nat, a: Args)
    returns (f: Flags, t: string, m: string, u: string)
    requires Escapes(s, i, ts) && At(s, Behind(i, ts)) == 'p'
    ensures Says(ts, f, ap, a) && Renders(s, i, ts, ap, a, t, 1)
    ensures t == "0x" + m && Field(m, u, f.width, f.padc)
    ensures Numeral(u, Slot(ts, ap, a) % 0x1_0000_0000_0000_0000, 16)
  {
    hide Says, Renders, Escapes, Padded, Digits, Numeral, Field;
    f := EscapeRenders(s, i, ts, ap, a);
    var n := Slot(ts, ap, a) % WORD;
    t, m, u := Conversion('p', f, Slot(ts, ap, a), a), Padded(n, 16, f.width, f.padc), Digits(n, 16);
    PaddedIsField(n, 16, f.width, f.padc);
  }

  /** "%c" is the character of the argument's low byte, "%%" is "%" and takes no argument. */
  lemma CharField(s: string, i: nat, ts: seq<Token>, ap: nat, a: Args)
    requires Escapes(s, i, ts)
    ensures At(s, Behind(i, ts)) == 'c' ==> Renders(s, i, ts, ap, a, [(Slot(ts, ap, a) % 256) as char], 1)
    ensures At(s, Behind(i, ts)) == '%' ==> Renders(s, i, ts, ap, a, "%", 0)
  {
    hide Says, Renders, Escapes;
    var c := At(s, Behind(i, ts));
    if c in {'c', '%'} {
      var f := EscapeRenders(s, i, ts, ap, a);
      LowByte(Slot(ts, ap, a));
    }
  }

  lemma LowByte(x: nat)
    ensures Signed32(x) % 256 == x % 256
  {
  }

  /** "%e" names the error of the argument's magnitude, or writes "error " and its numeral. */
  lemma ErrorField(s: string, i: nat, ts: seq<Token>, ap: nat, a: Args) returns (v: int, t: string, u: string)
    requires Escapes(s, i, ts) && At(s, Behind(i, ts)) == 'e'
    ensures Renders(s, i, ts, ap, a, t, 1) && IsSigned(Slot(ts, ap, a), v, 0x1_0000_0000)
    ensures var n := if v < 0 then -v else v;
            if n <= 24 && a.errors(n) != "" then t == a.errors(n) else t == "error " + u && Numeral(u, n, 10)
  {
    hide Says, Renders, Escapes, Digits, Numeral, Signed32, IsSigned;
    var f := EscapeRenders(s, i, ts, ap, a);
    v := Signed32(Slot(ts, ap, a));
    Signed32Is(Slot(ts, ap, a));
    var n: nat := if v < 0 then -v else v;
    t, u := Conversion('e', f, Slot(ts, ap, a), a), Digits(n, 10);
    DigitsAreNumeral(n, 10);
  }

  /** "%s" shows the string, or "(null)", up to the precision, with '?' for what cannot be shown if
      there is a '#', and fills up on the left, or with blanks on the right after '-'. */
  lemma StringField(s: string, i: nat, ts: seq<Token>, ap: nat, a: Args)
    returns (f: Flags, t: string, m: string)
    requires Escapes(s, i, ts) && At(s, Behind(i, ts)) == 's'
    ensures Says(ts, f, ap, a) && Renders(s, i, ts, ap, a, t, 1)
    ensures var x := Slot(ts, ap, a);
            var text: string := if x == 0 then "(null)" else a.strings(x);
            && |m| == (if 0 <= f.precision < |text| then f.precision else |text|)
            && forall k :: 0 <= k < |m| ==>
                 m[k] == if Hash in ts && !(' ' <= text[k] <= '~') then '?' else text[k]
    ensures |t| == if f.width > |m| then f.width else |m|
    ensures f.padc != '-' ==> Field(t, m, f.width, f.padc)
    ensures f.padc == '-' ==> t[..|m|] == m && forall k :: |m| <= k < |t| ==> t[k] == ' '
  {
    hide Says, Renders, Escapes, Masked, StringText;
    f := EscapeRenders(s, i, ts, ap, a);
    var x := Slot(ts, ap, a);
    var text: string := if x == 0 then "(null)" else a.strings(x);
    SaysAlt(ts, f, ap, a);
    t := StringText(text, f);
    m := StringShape(text, f);
  }

  lemma SaysAlt(ts: seq<Token>, f: Flags, ap: nat, a: Args)
    requires Says(ts, f, ap, a)
    ensures f.alt <==> Hash in ts
  {
  }

  lemma StringShape(text: string, f: Flags) returns (m: string)
    ensures |m| == if 0 <= f.precision < |text| then f.precision else |text|
    ensures forall k :: 0 <= k < |m| ==> m[k] == if f.alt && !(' ' <= text[k] <= '~') then '?' else text[k]
    ensures var t := StringText(text, f);
            && |t| == (if f.width > |m| then f.width else |m|)
            && (f.padc != '-' ==> Field(t, m, f.width, f.padc))
            && (f.padc == '-' ==> t[..|m|] == m && forall k :: |m| <= k < |t| ==> t[k] == ' ')
  {
    m := ShownText(text, f);
    hide Masked, Field, Shown;
    if f.padc == '-' {
      assert StringText(text, f) == m + Repeat(' ', f.width - |m|);
    } else {
      assert StringText(text, f) == Repeat(f.padc, f.width - |m|) + m;
      FilledUp(m, f.width, f.padc);
    }
  }

  lemma FilledUp(u: string, width: int, padc: char)
    ensures Field(Repeat(padc, width - |u|) + u, u, width, padc)
  {
  }

  lemma ShownText(text: string, f: Flags) returns (m: string)
    ensures |m| == Shown(text, f.precision) == if 0 <= f.precision < |text| then f.precision else |text|
    ensures m == Masked(text[..Shown(text, f.precision)], f.alt)
    ensures forall k :: 0 <= k < |m| ==> m[k] == if f.alt && !(' ' <= text[k] <= '~') then '?' else text[k]
  {
    hide Masked;
    var shown := text[..Shown(text, f.precision)];
    m := Masked(shown, f.alt);
    forall k | 0 <= k < |m| ensures m[k] == if f.alt && !(' ' <= text[k] <= '~') then '?' else text[k] {
      MaskedAt(shown, f.alt, k);
    }
  }

  /** Anything else is no conversion: the '%' is printed, and what follows it as it stands; only
      the arguments of its stars are gone. */
  lemma UnknownField(s: string, i: nat, ts: seq<Token>, ap: nat, a: Args)
    requires Escapes(s, i, ts)
    requires At(s, Behind(i, ts)) !in {'c', 'e', 's', 'd', 'u', 'o', 'p', 'x', '%'}
    ensures Render(s, i, ap, a) == "%" + Render(s, i + 1, ap + Stars(ts), a)
  {
    hide Says, Scan, Conversion, Spelling, Separate, Stars;
    var f := EscapeSays(s, i, ts, ap, a);
  }

  /** Up to the next '%' a format is printed as it stands, and at its end nothing more. */
  lemma {:induction false} PlainUpTo(s: CString, i: nat, j: nat, ap: nat, a: Args)
    requires i <= j <= |s| && forall k :: i <= k < j ==> s[k] != '%'
    ensures Render(s, i, ap, a) == s[i..j] + Render(s, j, ap, a)
    ensures Render(s, |s|, ap, a) == []
    decreases j - i
  {
    hide Render;
    RenderPlain(s, i, ap, a);
    RenderPlain(s, |s|, ap, a);
    if i < j {
      PlainUpTo(s, i + 1, j, ap, a);
      assert s[i..j] == [s[i]] + s[i + 1..j];
    } else {
      assert s[i..j] == [];
    }
  }

  lemma RenderPlain(s: CString, i: nat, ap: nat, a: Args)
    requires i <= |s|
    ensures i == |s| ==> Render(s, i, ap, a) == []
    ensures i < |s| && s[i] != '%' ==> Render(s, i, ap, a) == [s[i]] + Render(s, i + 1, ap, a)
  {
    hide Scan, Conversion;
    if i < |s| { assert s[i] in s; }
  }
}
