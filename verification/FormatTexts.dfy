/** What a whole format prints, piece by piece. */
module FormatTexts {
  import opened Bytes
  import opened Numbers
  import opened Format

  /** The pieces of a format: text, conversions with their arguments, and what is printed as it stands. */
  datatype Directive =
    | Letter(c: char)
    | Percent
    | Unknown(c: char)
    | Words(text: Option<string>)
    | Character(i: int32)
    | Decimal(i: int32, letter: char)
    | LongDecimal(l: int64, letter: char, twice: bool)
    | Unsigned(u: u32)
    | LongUnsigned(w: u64, twice: bool)
    | Hex(u: u32, upper: bool)
    | LongHex(w: u64, upper: bool, twice: bool)
    | Address(p: u64)

  predicate Valid(x: Directive) {
    match x
    case Letter(c) => c != '%'
    case Unknown(c) => c !in "sdiuxXpcl%"
    case Decimal(i, letter) => i > -0x8000_0000 && (letter == 'd' || letter == 'i')
    case LongDecimal(l, letter, _) => l > -0x8000_0000_0000_0000 && (letter == 'd' || letter == 'i')
    case _ => true
  }

  function Ells(twice: bool): (s: string) { if twice then "ll" else "l" }

  function HexLetter(upper: bool): (s: string) { if upper then "X" else "x" }

  /** How the piece is written in the format. */
  function Spelled(x: Directive): (s: string) {
    match x
    case Letter(c) => [c]
    case Percent => "%%"
    case Unknown(c) => ['%', c]
    case Words(_) => "%s"
    case Character(_) => "%c"
    case Decimal(_, letter) => ['%', letter]
    case LongDecimal(_, letter, twice) => "%" + Ells(twice) + [letter]
    case Unsigned(_) => "%u"
    case LongUnsigned(_, twice) => "%" + Ells(twice) + "u"
    case Hex(_, upper) => "%" + HexLetter(upper)
    case LongHex(_, upper, twice) => "%" + Ells(twice) + HexLetter(upper)
    case Address(_) => "%p"
  }

  /** The argument it takes. */
  function Argument(x: Directive): (args: seq<Arg>) {
    match x
    case Words(t) => [Arg.Text(t)]
    case Character(i) => [Int(i)]
    case Decimal(i, _) => [Int(i)]
    case LongDecimal(l, _, _) => [Long(l)]
    case Unsigned(u) => [UInt(u)]
    case LongUnsigned(w, _) => [ULong(w)]
    case Hex(u, _) => [UInt(u)]
    case LongHex(w, _, _) => [ULong(w)]
    case Address(p) => [Pointer(p)]
    case _ => []
  }

  function Minus(v: int): (s: string) {
    if v < 0 then "-" + Numeral(-v, 10, false) else Numeral(v, 10, false)
  }

  /** What it prints. */
  function Printed(x: Directive): (s: string) {
    match x
    case Letter(c) => [c]
    case Percent => "%"
    case Unknown(c) => ['%', c]
    case Words(t) => if t.Some? then t.value else "(null)"
    case Character(i) => [(i % 256) as char]
    case Decimal(i, _) => Minus(i)
    case LongDecimal(l, _, _) => Minus(l)
    case Unsigned(u) => Numeral(u, 10, false)
    case LongUnsigned(w, _) => Numeral(w, 10, false)
    case Hex(u, upper) => Numeral(u, 16, upper)
    case LongHex(w, upper, _) => Numeral(w, 16, upper)
    case Address(p) => "0x" + Numeral(p, 16, false)
  }

  ghost predicate AllValid(xs: seq<Directive>) { forall i :: 0 <= i < |xs| ==> Valid(xs[i]) }

  function SpelledAll(xs: seq<Directive>): (s: string) { if xs == [] then "" else Spelled(xs[0]) + SpelledAll(xs[1..]) }

  function Arguments(xs: seq<Directive>): (args: seq<Arg>) { if xs == [] then [] else Argument(xs[0]) + Arguments(xs[1..]) }

  function PrintedAll(xs: seq<Directive>): (s: string) { if xs == [] then "" else Printed(xs[0]) + PrintedAll(xs[1..]) }

  /** Between p and q the format reads w, and between a and d the arguments are b. */
  ghost predicate Here(fmt: string, p: nat, q: nat, w: string, args: seq<Arg>, a: nat, d: nat, b: seq<Arg>) {
    && p <= q <= |fmt| && fmt[p..q] == w && a <= d <= |args| && args[a..d] == b
  }

  lemma HereAt(fmt: string, p: nat, q: nat, w: string, args: seq<Arg>, a: nat, d: nat, b: seq<Arg>)
    requires Here(fmt, p, q, w, args, a, d, b)
    ensures q == p + |w| && d == a + |b| && forall i :: 0 <= i < |w| ==> fmt[p + i] == w[i]
    ensures b != [] ==> a < |args| && args[a] == b[0]
  {
    forall i | 0 <= i < |w| ensures fmt[p + i] == w[i] { assert fmt[p..q][i] == w[i]; }
    if b != [] { assert args[a] == args[a..d][0]; }
  }

  /** A percent sign, n modifiers and a conversion letter with its argument make one step. */
  lemma ConversionStep(fmt: string, p: nat, n: nat, c: char, args: seq<Arg>, a: nat, q: nat)
    requires q == p + 1 + n < |fmt| && n <= 2 && fmt[p] == '%' && fmt[q] == c && TakesArg(c) && a < |args|
    requires n >= 1 ==> fmt[p + 1] == 'l'
    requires n >= 2 ==> fmt[p + 2] == 'l'
    ensures Next(fmt, p, args, a) ==
            match Convert(c, n > 0, args[a]) case None => None case Some(out) => Some(Format.Piece(out, q + 1, a + 1))
  {
    assert Modifiers(fmt, p + 1) == n;
  }

  /** A percent sign and a letter that takes no argument. */
  lemma PlainStep(fmt: string, p: nat, c: char, args: seq<Arg>, a: nat, w: string)
    requires c != 'l' && !TakesArg(c) && w == ['%', c] && p + 2 <= |fmt| && a <= |args| && forall i :: 0 <= i < |w| ==> fmt[p + i] == w[i]
    ensures Next(fmt, p, args, a) == Some(Format.Piece(Plain(c), p + 2, a))
  {
    assert fmt[p + 0] == w[0] && fmt[p + 1] == w[1];
    assert Modifiers(fmt, p + 1) == 0;
  }

  /** Every piece is one step of the format loop. */
  lemma DirectiveStep(x: Directive, fmt: string, p: nat, args: seq<Arg>, a: nat, w: string, out: string, q: nat, d: nat)
    requires Valid(x) && w == Spelled(x) && out == Printed(x) && Here(fmt, p, q, w, args, a, d, Argument(x))
    ensures p < |fmt| && a <= |args| && Next(fmt, p, args, a) == Some(Format.Piece(out, q, d))
  {
    HereAt(fmt, p, q, w, args, a, d, Argument(x));
    match x
    case Letter(c) =>
    case Percent => PlainStep(fmt, p, '%', args, a, w);
    case Unknown(c) => PlainStep(fmt, p, c, args, a, w);
    case _ => ArgumentStep(x, fmt, p, args, a, w);
  }

  /** The letters of a conversion with an argument: a percent sign, up to two l's, and its own. */
  lemma ConversionLetters(x: Directive, w: string)
    requires Valid(x) && Argument(x) != [] && w == Spelled(x)
    ensures 2 <= |w| <= 4 && w[0] == '%' && TakesArg(w[|w| - 1]) && (|w| > 2 ==> w[1] == 'l') && (|w| > 3 ==> w[2] == 'l')
    ensures |Argument(x)| == 1
  {}

  lemma ConvertPrints(x: Directive, w: string)
    requires Valid(x) && Argument(x) != [] && w == Spelled(x)
    ensures |w| >= 2 && Convert(w[|w| - 1], |w| > 2, Argument(x)[0]) == Some(Printed(x))
  {}

  lemma ArgumentStep(x: Directive, fmt: string, p: nat, args: seq<Arg>, a: nat, w: string)
    requires Valid(x) && Argument(x) != [] && w == Spelled(x) && p + |w| <= |fmt| && forall i :: 0 <= i < |w| ==> fmt[p + i] == w[i]
    requires a < |args| && args[a] == Argument(x)[0]
    ensures Next(fmt, p, args, a) == Some(Format.Piece(Printed(x), p + |w|, a + |Argument(x)|))
  {
    var q := p + |w| - 1;
    ConversionLetters(x, w);
    ConvertPrints(x, w);
    assert fmt[p + 0] == w[0] && fmt[p + 1] == w[1] && fmt[p + (|w| - 1)] == w[|w| - 1];
    assert |w| == 4 ==> fmt[p + 2] == w[2];
    ConversionStep(fmt, p, |w| - 2, w[|w| - 1], args, a, q);
  }

  lemma OutputStep(fmt: string, p: nat, args: seq<Arg>, a: nat, out: string, q: nat, d: nat, tail: string)
    requires p < |fmt| && a <= |args| && Next(fmt, p, args, a) == Some(Format.Piece(out, q, d)) && Output(fmt, q, args, d) == Some(tail)
    ensures Output(fmt, p, args, a) == Some(out + tail)
  {}

  /** The first piece of several, as written and as printed. */
  lemma FirstDirective(xs: seq<Directive>, ys: seq<Directive>, end: string)
    requires xs != [] && ys == xs[1..]
    ensures SpelledAll(xs) + end == Spelled(xs[0]) + (SpelledAll(ys) + end)
    ensures PrintedAll(xs) + end == Printed(xs[0]) + (PrintedAll(ys) + end)
    ensures Arguments(xs) == Argument(xs[0]) + Arguments(ys)
  {
    Regroup(Spelled(xs[0]), SpelledAll(ys), end);
    Regroup(Printed(xs[0]), PrintedAll(ys), end);
  }

  /** From here on the format spells the pieces and the end, and the arguments are theirs. */
  ghost predicate Ahead(xs: seq<Directive>, end: string, fmt: string, p: nat, args: seq<Arg>, a: nat) {
    AllValid(xs) && p <= |fmt| && fmt[p..] == SpelledAll(xs) + end && a <= |args| && args[a..] == Arguments(xs)
  }

  /** One step of the loop prints the first piece, and leaves the others ahead. */
  lemma OneAhead(xs: seq<Directive>, x: Directive, ys: seq<Directive>, end: string, fmt: string, p: nat, args: seq<Arg>, a: nat,
                 w: string, b: seq<Arg>, q: nat, d: nat)
    requires xs != [] && x == xs[0] && ys == xs[1..] && Ahead(xs, end, fmt, p, args, a)
    requires w == Spelled(x) && b == Argument(x) && q == p + |w| && d == a + |b|
    ensures Valid(x) && Here(fmt, p, q, w, args, a, d, b) && Ahead(ys, end, fmt, q, args, d)
  {
    FirstDirective(xs, ys, end);
    HereAndThere(fmt, p, w, SpelledAll(ys) + end, q);
    HereAndThere(args, a, b, Arguments(ys), d);
    assert Valid(xs[0]);
  }

  /** The whole format prints its pieces, one after the other; a lone percent sign behind them
      stands for itself. */
  lemma {:induction false} OutputIsPrinted(xs: seq<Directive>, end: string, fmt: string, p: nat, args: seq<Arg>, a: nat) returns (out: string)
    requires (end == "" || end == "%") && Ahead(xs, end, fmt, p, args, a)
    ensures Output(fmt, p, args, a) == Some(out) && out == PrintedAll(xs) + end
    decreases |xs|
  {
    if xs == [] {
      EndIsPrinted(end, fmt, p, args, a);
      out := end;
    } else {
      var x, ys, w, b, first := xs[0], xs[1..], Spelled(xs[0]), Argument(xs[0]), Printed(xs[0]);
      var q, d := p + |w|, a + |b|;
      OneAhead(xs, x, ys, end, fmt, p, args, a, w, b, q, d);
      DirectiveStep(x, fmt, p, args, a, w, first, q, d);
      var tail := OutputIsPrinted(ys, end, fmt, q, args, d);
      OutputStep(fmt, p, args, a, first, q, d, tail);
      FirstDirective(xs, ys, end);
      out := first + tail;
    }
  }

  lemma EndIsPrinted(end: string, fmt: string, p: nat, args: seq<Arg>, a: nat)
    requires (end == "" || end == "%") && p <= |fmt| && fmt[p..] == end && a <= |args|
    ensures Output(fmt, p, args, a) == Some(end)
  {
    if end == "%" {
      var q := p + 1;
      assert |fmt| == q && fmt[p..][0] == '%';
      OutputStep(fmt, p, args, a, [fmt[p]], q, a, "");
      assert [fmt[p]] + "" == end;
    }
  }

  lemma HereAndThere<T>(s: seq<T>, p: nat, w: seq<T>, rest: seq<T>, q: nat)
    requires p <= |s| && s[p..] == w + rest && q == p + |w|
    ensures q <= |s| && s[p..q] == w && s[q..] == rest
  {
    assert |s[p..]| == |w| + |rest|;
    assert s[p..q] == s[p..][..|w|] && s[q..] == s[p..][|w|..];
  }

  lemma FormatPrints(xs: seq<Directive>, end: string)
    requires AllValid(xs) && (end == "" || end == "%")
    ensures Formatted(SpelledAll(xs) + end, Arguments(xs)) == Some(PrintedAll(xs) + end)
  {
    var fmt, args := SpelledAll(xs) + end, Arguments(xs);
    assert fmt[0..] == fmt && args[0..] == args;
    var out := OutputIsPrinted(xs, end, fmt, 0, args, 0);
  }
}
