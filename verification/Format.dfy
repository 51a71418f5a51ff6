/** snprintf of include/libc.h: it returns the length of the whole output, and writes what fits. */
module Format {
  import opened Bytes
  import opened Numbers

  type int64 = x: int | -0x8000_0000_0000_0000 <= x <= LONG_MAX

  const INT_MIN: int := -0x8000_0000
  const LONG_MIN: int := -0x8000_0000_0000_0000

  /** A variadic argument; a text is what stands before its NUL, and may be a null pointer. */
  datatype Arg =
    | Text(text: Option<string>)
    | Int(i: int32)
    | Long(l: int64)
    | UInt(u: u32)
    | ULong(w: u64)
    | Pointer(p: u64)

  function SignedNumeral(v: int): (r: string) {
    if v < 0 then "-" + Numeral(-v, 10, false) else Numeral(v, 10, false)
  }

  /** How many l's follow, at most two. */
  function Modifiers(fmt: string, p: nat): (n: nat)
    requires p <= |fmt|
    ensures n <= 2 && p + n <= |fmt|
  {
    if p < |fmt| && fmt[p] == 'l' then
      if p + 1 < |fmt| && fmt[p + 1] == 'l' then 2 else 1
    else 0
  }

  predicate TakesArg(c: char) { c in "sdiuxXpc" }

  /** The output of a conversion that takes an argument; None when the argument has another type
      or its magnitude is out of range, where C leaves the behaviour undefined. */
  function Convert(c: char, wide: bool, arg: Arg): (r: Option<string>) {
    match arg
    case Text(t) => if c == 's' then Some(if t.Some? then t.value else "(null)") else None
    case Int(v) =>
      if c == 'c' then Some([(v % 256) as char])
      else if (c == 'd' || c == 'i') && !wide && v > INT_MIN then Some(SignedNumeral(v))
      else None
    case Long(v) => if (c == 'd' || c == 'i') && wide && v > LONG_MIN then Some(SignedNumeral(v)) else None
    case UInt(v) => if wide then None else Unsigned(c, v)
    case ULong(v) => if wide then Unsigned(c, v) else None
    case Pointer(v) => if c == 'p' then Some("0x" + Numeral(v, 16, false)) else None
  }

  function Unsigned(c: char, v: u64): (r: Option<string>) {
    if c == 'u' then Some(Numeral(v, 10, false))
    else if c == 'x' then Some(Numeral(v, 16, false))
    else if c == 'X' then Some(Numeral(v, 16, true))
    else None
  }

  /** A conversion without an argument: a percent sign, or an unknown letter printed as it stands. */
  function Plain(c: char): (r: string) { if c == '%' then "%" else ['%', c] }

  /** One step: the output, and where in the format and the arguments it leaves off. */
  datatype Piece = Piece(out: string, p: nat, a: nat)

  function Next(fmt: string, p: nat, args: seq<Arg>, a: nat): (r: Option<Piece>)
    requires p < |fmt| && a <= |args|
    ensures r.Some? ==> p < r.value.p <= |fmt| && a <= r.value.a <= |args|
  {
    if fmt[p] != '%' || p + 1 == |fmt| then Some(Piece([fmt[p]], p + 1, a))
    else
      var n := Modifiers(fmt, p + 1);
      var q := p + 1 + n;
      if q == |fmt| then None
      else if !TakesArg(fmt[q]) then Some(Piece(Plain(fmt[q]), q + 1, a))
      else if a == |args| then None
      else match Convert(fmt[q], n > 0, args[a])
        case None => None
        case Some(out) => Some(Piece(out, q + 1, a + 1))
  }

  /** The whole output from position p and argument a on. */
  function Output(fmt: string, p: nat, args: seq<Arg>, a: nat): (r: Option<string>)
    requires p <= |fmt| && a <= |args|
    decreases |fmt| - p
  {
    if p == |fmt| then Some("")
    else match Next(fmt, p, args, a)
      case None => None
      case Some(piece) =>
        match Output(fmt, piece.p, args, piece.a)
        case None => None
        case Some(rest) => Some(piece.out + rest)
  }

  function Formatted(fmt: string, args: seq<Arg>): (r: Option<string>) { Output(fmt, 0, args, 0) }

  lemma OneConversion(fmt: string, arg: Arg)
    requires 2 <= |fmt| <= 4 && fmt[0] == '%' && Modifiers(fmt, 1) == |fmt| - 2 && TakesArg(fmt[|fmt| - 1])
    ensures Formatted(fmt, [arg]) == Convert(fmt[|fmt| - 1], |fmt| > 2, arg)
  {
    var n := Next(fmt, 0, [arg], 0);
    assert n == match Convert(fmt[|fmt| - 1], |fmt| > 2, arg) case None => None case Some(out) => Some(Piece(out, |fmt|, 1));
    if n.Some? {
      assert Output(fmt, |fmt|, [arg], 1) == Some("");
      assert n.value.out + "" == n.value.out;
    }
  }

  /** What is printed with %d is read back by atoi. */
  lemma PrintedIntIsReadBack(i: int32)
    requires i > INT_MIN
    ensures var d := Formatted("%d", [Int(i)]); d.Some? && Atoi(d.value) == Some(i)
  {
    OneConversion("%d", Int(i));
    AtoiReadsItoa(i);
  }

  /** What is printed with %lx or %lX is read back by strtol. */
  lemma PrintedHexIsReadBack(w: u64, upper: bool)
    requires w <= LONG_MAX
    ensures var x := Formatted(if upper then "%lX" else "%lx", [ULong(w)]);
            x.Some? && Strtol(x.value, 16) == Parsed(Some(w), |x.value|)
  {
    OneConversion(if upper then "%lX" else "%lx", ULong(w));
    StrtolReadsUlltoa(w, 16, upper);
  }

  // ---------------------------------------------------------------- the buffer

  function Min(x: nat, y: nat): (r: nat) { if x < y then x else y }

  /** Of the text t, what fits has been written over `was`. */
  ghost predicate Written(str: seq<char>, was: seq<char>, size: nat, t: string, out: nat, rem: nat, total: nat) {
    && 0 < size <= |was| && total == |t|
    && out == Min(|t|, size - 1) && rem == size - 1 - out
    && str == t[..out] + was[out..]
  }

  lemma WriteOne(str: seq<char>, was: seq<char>, size: nat, t: string, c: char, out: nat, rem: nat, total: nat)
    requires Written(str, was, size, t, out, rem, total)
    ensures rem > 0 ==> out < |str| && Written(str[out := c], was, size, t + [c], out + 1, rem - 1, total + 1)
    ensures rem == 0 ==> Written(str, was, size, t + [c], out, rem, total + 1)
  {
    if rem > 0 {
      assert t[..out] == t;
      assert str[out := c] == (t + [c])[..out + 1] + was[out + 1..];
    } else {
      assert (t + [c])[..out] == t[..out];
    }
  }

  /** The copying loops of snprintf. */
  method PutText(str: array<char>, out0: nat, rem0: nat, total0: nat, s: string,
                 ghost was: seq<char>, ghost size: nat, ghost t: string)
    returns (out: nat, rem: nat, total: nat)
    requires Written(str[..], was, size, t, out0, rem0, total0)
    modifies str
    ensures Written(str[..], was, size, t + s, out, rem, total)
  {
    out, rem, total := out0, rem0, total0;
    assert t + s[..0] == t;
    for i := 0 to |s|
      invariant Written(str[..], was, size, t + s[..i], out, rem, total)
    {
      WriteOne(str[..], was, size, t + s[..i], s[i], out, rem, total);
      assert t + s[..i + 1] == t + s[..i] + [s[i]];
      if rem > 0 {
        str[out] := s[i];
        out, rem := out + 1, rem - 1;
      }
      total := total + 1;
    }
    assert t + s[..|s|] == t + s;
  }

  // ---------------------------------------------------------------- the scratch buffer

  function Pow10(d: nat): (r: nat) { if d == 0 then 1 else 10 * Pow10(d - 1) }

  lemma PowStep(d: nat)
    ensures Pow10(d + 4) == 10000 * Pow10(d)
  {
    assert Pow10(d + 4) == 10 * Pow10(d + 3) && Pow10(d + 2) == 10 * Pow10(d + 1);
  }

  lemma {:induction false} FewDigits(v: nat, base: Base, upper: bool, d: nat)
    requires base >= 10 && v < Pow10(d)
    ensures |Digits(v, base, upper)| <= d
  {
    if v > 0 {
      OneDigitLess(v, base, d);
      Digits1(v, base, upper);
      FewDigits(v / base, base, upper, d - 1);
    }
  }

  lemma OneDigitLess(v: nat, base: Base, d: nat)
    requires base >= 10 && 0 < v < Pow10(d)
    ensures d > 0 && 0 <= v / base < Pow10(d - 1)
  {
    assert Pow10(0) == 1;
    assert Pow10(d) == 10 * Pow10(d - 1);
    SmallQuotient(v, base);
  }

  lemma SmallQuotient(v: nat, base: Base)
    requires base >= 10
    ensures 0 <= v / base && v / base * 10 <= v
  {
    var q := v / base;
    DivMod(v, base);
    assert q * base >= q * 10;
  }

  /** Every number of snprintf fits its buffer of 64 bytes with room to spare. */
  lemma FitsScratch(v: u64, base: Base, upper: bool)
    requires base >= 10
    ensures |Numeral(v, base, upper)| <= 20
  {
    PowStep(0);
    PowStep(4);
    PowStep(8);
    PowStep(12);
    PowStep(16);
    FewDigits(v, base, upper, 20);
  }

  /** buf, filled by ulltoa behind a sign or a prefix. */
  method NumberText(prefix: string, v: u64, base: Base, upper: bool) returns (s: string)
    requires base >= 10 && |prefix| <= 2
    ensures s == prefix + Numeral(v, base, upper) && (prefix == "" ==> s == Numeral(v, base, upper))
  {
    var buf := new char[64](_ => '\0');
    FitsScratch(v, base, upper);
    for i := 0 to |prefix|
      invariant forall k :: 0 <= k < i ==> buf[k] == prefix[k]
    {
      buf[i] := prefix[i];
    }
    var end := RunUlltoa(v, buf, |prefix|, base, upper);
    assert buf[..end] == buf[..|prefix|] + buf[|prefix|..end];
    assert buf[..|prefix|] == prefix;
    return buf[..end];
  }

  /** The text of one conversion. */
  method ArgText(c: char, wide: bool, arg: Arg) returns (s: string)
    requires Convert(c, wide, arg).Some?
    ensures Convert(c, wide, arg) == Some(s)
  {
    match arg {
      case Text(t) => s := if t.Some? then t.value else "(null)";
      case Int(v) =>
        if c == 'c' { s := [(v % 256) as char]; } else { s := SignedText(v); }
      case Long(v) => s := SignedText(v);
      case UInt(v) => s := NumberText("", v, if c == 'u' then 10 else 16, c == 'X');
      case ULong(v) => s := NumberText("", v, if c == 'u' then 10 else 16, c == 'X');
      case Pointer(v) => s := NumberText("0x", v, 16, false);
    }
  }

  method SignedText(v: int64) returns (s: string)
    requires v > LONG_MIN
    ensures s == SignedNumeral(v)
  {
    var n: int := v;
    if n < 0 { s := NumberText("-", -n, 10, false); } else { s := NumberText("", n, 10, false); }
  }

  /** Of the whole output, t comes from what is before position p and argument a. */
  ghost predicate Midway(fmt: string, p: nat, args: seq<Arg>, a: nat, t: string, all: string) {
    && p <= |fmt| && a <= |args|
    && Output(fmt, p, args, a).Some? && all == t + Output(fmt, p, args, a).value
  }

  lemma MidwayEnds(fmt: string, p: nat, args: seq<Arg>, a: nat, t: string, all: string)
    requires Midway(fmt, p, args, a, t, all)
    ensures p < |fmt| ==> Next(fmt, p, args, a).Some?
    ensures p == |fmt| ==> t == all
  {}

  lemma MidwayStep(fmt: string, p: nat, args: seq<Arg>, a: nat, t: string, all: string, piece: Piece)
    requires p < |fmt| && Midway(fmt, p, args, a, t, all) && Next(fmt, p, args, a) == Some(piece)
    ensures Midway(fmt, piece.p, args, piece.a, t + piece.out, all)
  {}

  lemma Terminated(str: seq<char>, was: seq<char>, size: nat, t: string, out: nat, rem: nat, total: nat)
    requires Written(str, was, size, t, out, rem, total)
    ensures out < |str| && str[out := '\0'] == t[..out] + ['\0'] + was[out + 1..]
  {}

  method Snprintf(str: array<char>, size: nat, fmt: string, args: seq<Arg>) returns (total: nat)
    requires size <= str.Length && Formatted(fmt, args).Some?
    modifies str
    ensures size == 0 ==> total == 0 && str[..] == old(str[..])
    ensures size > 0 ==>
              var t := Formatted(fmt, args).value;
              var m := Min(|t|, size - 1);
              total == |t| && str[..] == t[..m] + ['\0'] + old(str[m + 1..])
  {
    if size == 0 { return 0; }
    ghost var was, t, all := str[..], "", Formatted(fmt, args).value;
    assert Midway(fmt, 0, args, 0, t, all);
    var out: nat, rem: nat, p: nat, a: nat := 0, size - 1, 0, 0;
    total := 0;
    while p < |fmt|
      invariant Midway(fmt, p, args, a, t, all)
      invariant Written(str[..], was, size, t, out, rem, total)
      decreases |fmt| - p
    {
      MidwayEnds(fmt, p, args, a, t, all);
      ghost var p0, a0 := p, a;
      var s;
      s, p, a := Scan(fmt, p, args, a);
      MidwayStep(fmt, p0, args, a0, t, all, Piece(s, p, a));
      out, rem, total := PutText(str, out, rem, total, s, was, size, t);
      t := t + s;
    }
    MidwayEnds(fmt, p, args, a, t, all);
    Terminated(str[..], was, size, t, out, rem, total);
    str[out] := '\0';
  }

  /** One turn of the format loop: what it prints, and where it goes on. */
  method Scan(fmt: string, p0: nat, args: seq<Arg>, a0: nat) returns (s: string, p: nat, a: nat)
    requires p0 < |fmt| && a0 <= |args| && Next(fmt, p0, args, a0).Some?
    ensures Next(fmt, p0, args, a0) == Some(Piece(s, p, a))
  {
    p, a := p0, a0;
    if fmt[p] == '%' && p + 1 < |fmt| {
      p := p + 1;
      var wide := false;
      if fmt[p] == 'l' {
        wide := true;
        p := p + 1;
        if p < |fmt| && fmt[p] == 'l' { p := p + 1; }
      }
      if TakesArg(fmt[p]) {
        s := ArgText(fmt[p], wide, args[a]);
        a := a + 1;
      } else {
        s := Plain(fmt[p]);
      }
    } else {
      s := [fmt[p]];
    }
    p := p + 1;
  }
}
