/** Numbers and their texts: ulltoa, itoa, atoi and strtol of include/libc.h. */
module Numbers {
  import opened Bytes

  const LOWER := "0123456789abcdef"
  const UPPER := "0123456789ABCDEF"
  const INT_MAX := 0x7FFF_FFFF
  const LONG_MAX := 0x7FFF_FFFF_FFFF_FFFF

  type Base = b: nat | 2 <= b <= 16 witness 2

  type int32 = x: int | -0x8000_0000 <= x <= INT_MAX

  function DigitChar(d: nat, upper: bool): (c: char)
    requires d < 16
    ensures DigitValue(c) == Some(d)
  {
    if d < 10 then '0' + d as char else if upper then 'A' + (d - 10) as char else 'a' + (d - 10) as char
  }

  /** The tables of ulltoa hold these characters. */
  lemma DigitTables(d: nat)
    requires d < 16
    ensures LOWER[d] == DigitChar(d, false) == "0123456789abcdef"[d]
    ensures UPPER[d] == DigitChar(d, true) == "0123456789ABCDEF"[d]
  {}

  lemma DivMod(v: nat, base: Base)
    ensures v == v / base * base + v % base && 0 <= v / base && (v > 0 ==> v / base < v)
  {
    var q: int, b: int := v / base, base;
    assert v == q * b + v % base;
    assert q < 0 ==> q * b <= -b;
    if q > 0 { assert q * b >= q * 2; }
  }

  lemma SmallRemainder(v: nat, base: Base)
    requires v / base == 0
    ensures v % base == v
  {
    DivMod(v, base);
    assert v / base * base == 0;
  }

  /** The digits of a number, none for zero. */
  function Digits(v: nat, base: Base, upper: bool): (r: string) {
    if v == 0 then "" else Digits(v / base, base, upper) + [DigitChar(v % base, upper)]
  }

  function Numeral(v: nat, base: Base, upper: bool): (r: string) {
    if v == 0 then "0" else Digits(v, base, upper)
  }

  /** The digit a character stands for, whatever the base, as strtol reads it. */
  function DigitValue(c: char): (r: Option<nat>) {
    if '0' <= c <= '9' then Some((c - '0') as nat)
    else if 'a' <= c <= 'z' then Some((c - 'a') as nat + 10)
    else if 'A' <= c <= 'Z' then Some((c - 'A') as nat + 10)
    else None
  }

  predicate IsDigit(c: char, base: nat) { DigitValue(c).Some? && DigitValue(c).value < base }

  ghost predicate AllDigits(s: string, base: nat) { forall i :: 0 <= i < |s| ==> IsDigit(s[i], base) }

  /** The number a text of digits denotes. */
  ghost function Value(s: string, base: nat): (r: nat)
    requires AllDigits(s, base)
  {
    if s == "" then 0 else Value(s[..|s| - 1], base) * base + DigitValue(s[|s| - 1]).value
  }

  lemma ValueSnoc(s: string, c: char, base: nat)
    requires AllDigits(s, base) && IsDigit(c, base)
    ensures AllDigits(s + [c], base) && Value(s + [c], base) == Value(s, base) * base + DigitValue(c).value
  {
    assert (s + [c])[..|s + [c]| - 1] == s;
  }

  /** A numeral denotes its number. */
  lemma {:induction false} DigitsDenote(v: nat, base: Base, upper: bool)
    ensures AllDigits(Digits(v, base, upper), base) && Value(Digits(v, base, upper), base) == v
  {
    if v > 0 {
      DivMod(v, base);
      DigitsDenote(v / base, base, upper);
      ValueSnoc(Digits(v / base, base, upper), DigitChar(v % base, upper), base);
    }
  }

  lemma NumeralDenotes(v: nat, base: Base, upper: bool)
    ensures var s := Numeral(v, base, upper);
            s != "" && AllDigits(s, base) && Value(s, base) == v && IsDigit(s[0], base) && (v > 0 ==> s[0] != '0')
  {
    DigitsDenote(v, base, upper);
    if v > 0 { LeadingDigit(v, base, upper); }
    else { assert "0"[..0] == ""; }
  }

  lemma Digits1(v: nat, base: Base, upper: bool)
    requires v > 0
    ensures Digits(v, base, upper) == Digits(v / base, base, upper) + [DigitChar(v % base, upper)]
    ensures 0 <= v / base < v
  {
    DivMod(v, base);
  }

  lemma {:induction false} LeadingDigit(v: nat, base: Base, upper: bool)
    requires v > 0
    ensures Digits(v, base, upper) != "" && Digits(v, base, upper)[0] != '0'
  {
    var q, d := v / base, v % base;
    Digits1(v, base, upper);
    if q > 0 {
      LeadingDigit(q, base, upper);
      assert Digits(v, base, upper)[0] == Digits(q, base, upper)[0];
    } else {
      SmallRemainder(v, base);
      assert DigitChar(d, upper) != '0';
    }
  }

  // ---------------------------------------------------------------- reading

  predicate Blank(c: char) { c == ' ' || c == '\t' || c == '\n' || c == '\r' }

  /** Where a run of characters with the property ends. */
  function SkipBlanks(s: string, i: nat): (j: nat)
    requires i <= |s|
    ensures i <= j <= |s| && (j < |s| ==> !Blank(s[j])) && forall k :: i <= k < j ==> Blank(s[k])
    decreases |s| - i
  {
    if i < |s| && Blank(s[i]) then SkipBlanks(s, i + 1) else i
  }

  function SkipDigits(s: string, i: nat, base: nat): (j: nat)
    requires i <= |s|
    ensures i <= j <= |s| && (j < |s| ==> !IsDigit(s[j], base)) && forall k :: i <= k < j ==> IsDigit(s[k], base)
    decreases |s| - i
  {
    if i < |s| && IsDigit(s[i], base) then SkipDigits(s, i + 1, base) else i
  }

  predicate HexPrefix(s: string, i: nat) { i + 1 < |s| && s[i] == '0' && (s[i + 1] == 'x' || s[i + 1] == 'X') }

  /** The base strtol reads in, and where the digits start. */
  function BaseAndStart(s: string, i: nat, base: nat): (r: (nat, nat))
    requires i <= |s|
    ensures i <= r.1 <= |s|
  {
    if (base == 0 || base == 16) && HexPrefix(s, i) then (16, i + 2)
    else if base == 0 then (if i < |s| && s[i] == '0' then 8 else 10, i)
    else (base, i)
  }

  /** A parsed number, None when a signed computation overflows, and where the text was left. */
  datatype Parsed = Parsed(value: Option<int>, end: nat)

  ghost function Bounded(v: int, max: int): (r: Option<int>) { if v <= max then Some(v) else None }

  ghost function Signed(v: Option<int>, negative: bool): (r: Option<int>) {
    if negative && v.Some? then Some(-v.value) else v
  }

  ghost function Strtol(s: string, base: nat): (r: Parsed) {
    var i := SkipBlanks(s, 0);
    var signed := i < |s| && (s[i] == '-' || s[i] == '+');
    var r := BaseAndStart(s, if signed then i + 1 else i, base);
    ParseFrom(s, r.1, r.0, LONG_MAX, signed && s[i] == '-')
  }

  /** The digits from position i on, and the sign in front of them. */
  ghost function ParseFrom(s: string, i: nat, base: nat, max: int, negative: bool): (r: Parsed)
    requires i <= |s|
  {
    var j := SkipDigits(s, i, base);
    Parsed(Signed(Bounded(Value(s[i..j], base), max), negative), j)
  }

  /** strtol(ulltoa(v)) is v, in every base and either case, exactly when v is a long. */
  lemma StrtolReadsUlltoa(v: nat, base: Base, upper: bool)
    ensures var s := Numeral(v, base, upper);
            Strtol(s, base) == Parsed(if v <= LONG_MAX then Some(v) else None, |s|)
  {
    var s := Numeral(v, base, upper);
    NumeralDenotes(v, base, upper);
    NoSignNoBlank(s[0], base);
    if base == 16 && |s| > 1 { assert IsDigit(s[1], 16); }
    var j := SkipDigits(s, 0, base);
    assert s[0..j] == s;
  }

  lemma NoSignNoBlank(c: char, base: Base)
    requires IsDigit(c, base)
    ensures !Blank(c) && c != '-' && c != '+' && c != 'x' && c != 'X'
  {}

  ghost function Atoi(s: string): (r: Option<int>) {
    var i := SkipSpaces(s, 0);
    var negative := i < |s| && s[i] == '-';
    var start := if negative then i + 1 else i;
    ParseFrom(s, start, 10, INT_MAX, negative).value
  }

  function SkipSpaces(s: string, i: nat): (j: nat)
    requires i <= |s|
    ensures i <= j <= |s| && (j < |s| ==> s[j] != ' ' && s[j] != '\t') && forall k :: i <= k < j ==> s[k] == ' ' || s[k] == '\t'
    decreases |s| - i
  {
    if i < |s| && (s[i] == ' ' || s[i] == '\t') then SkipSpaces(s, i + 1) else i
  }

  /** itoa: a sign only in base ten; otherwise the bits of the number, unsigned. */
  function Itoa(v: int32, base: Base): (r: string) {
    var n: int := v;
    if n < 0 && base == 10 then "-" + Numeral(-n, 10, false)
    else Numeral(if n < 0 then n + 0x1_0000_0000 else n, base, false)
  }

  /** atoi(itoa(v, 10)) is v for every int above INT_MIN, whose magnitude is no int. */
  lemma AtoiReadsItoa(v: int32)
    ensures Atoi(Itoa(v, 10)) == if v == -0x8000_0000 then None else Some(v)
  {
    var n: int := v;
    var m: nat := if n < 0 then -n else n;
    NumeralDenotes(m, 10, false);
    AtoiOfDigits(Numeral(m, 10, false), n < 0);
  }

  /** What atoi makes of a text of digits, with or without a sign. */
  lemma AtoiOfDigits(d: string, negative: bool)
    requires d != "" && AllDigits(d, 10)
    ensures Atoi(if negative then "-" + d else d) == Signed(Bounded(Value(d, 10), INT_MAX), negative)
  {
    var s, start := if negative then "-" + d else d, if negative then 1 else 0;
    NoSignNoBlank(d[0], 10);
    assert s[start..] == d && s[start] == d[0];
    WholeRun(s, start, 10);
    assert s[start..|s|] == d;
  }

  lemma WholeRun(s: string, i: nat, base: nat)
    requires i <= |s| && AllDigits(s[i..], base)
    ensures SkipDigits(s, i, base) == |s|
  {
    var j := SkipDigits(s, i, base);
    assert forall k :: i <= k < |s| ==> s[k] == s[i..][k - i];
  }

  /** Texts denote at most one number each: different numbers, different numerals. */
  lemma NumeralsDiffer(v: nat, w: nat, base: Base, upper: bool)
    requires Numeral(v, base, upper) == Numeral(w, base, upper)
    ensures v == w
  {
    NumeralDenotes(v, base, upper);
    NumeralDenotes(w, base, upper);
  }

  // ---------------------------------------------------------------- the code

  function Reversed(s: string): (r: string)
    ensures |r| == |s| && forall i :: 0 <= i < |s| ==> r[i] == s[|s| - 1 - i]
  {
    seq(|s|, i requires 0 <= i < |s| => s[|s| - 1 - i])
  }

  lemma ReversedSnoc(s: string, c: char)
    ensures Reversed(s + [c]) == [c] + Reversed(s)
  {}

  /** ulltoa, into the buffer from offset `at` on. */
  method RunUlltoa(value: u64, str: array<char>, at: nat, base: Base, upper: bool) returns (end: nat)
    requires at + |Numeral(value, base, upper)| < str.Length
    modifies str
    ensures end == at + |Numeral(value, base, upper)|
    ensures str[at..end] == Numeral(value, base, upper) && str[end] == '\0'
    ensures forall k :: 0 <= k < at || end < k < str.Length ==> str[k] == old(str[k])
  {
    if value == 0 {
      str[at] := '0';
      str[at + 1] := '\0';
      return at + 1;
    }
    end := FillDigits(value, str, at, base, upper);
    str[end] := '\0';
    ReverseRange(str, at, end);
  }

  lemma MoveLast(all: string, rest: string, c: char, before: string)
    requires all == rest + [c] + Reversed(before)
    ensures all == rest + Reversed(before + [c]) && |before| < |all|
  {
    ReversedSnoc(before, c);
  }

  /** *p = digits[value % base]; value /= base */
  method PutDigit(v: nat, str: array<char>, p: nat, base: Base, upper: bool) returns (rest: nat)
    requires p < str.Length && v > 0
    modifies str
    ensures rest == v / base && str[p] == DigitChar(v % base, upper)
    ensures forall k :: 0 <= k < str.Length && k != p ==> str[k] == old(str[k])
  {
    var d := v % base;
    DigitTables(d);
    str[p] := if upper then UPPER[d] else LOWER[d];
    rest := v / base;
  }

  /** The digits, the last one first. */
  method FillDigits(value: u64, str: array<char>, at: nat, base: Base, upper: bool) returns (p: nat)
    requires at + |Digits(value, base, upper)| < str.Length
    modifies str
    ensures p == at + |Digits(value, base, upper)|
    ensures Reversed(str[at..p]) == Digits(value, base, upper)
    ensures forall k :: 0 <= k < at || p <= k < str.Length ==> str[k] == old(str[k])
  {
    ghost var all := Digits(value, base, upper);
    p := at;
    var v: nat := value;
    while v > 0
      invariant at <= p < str.Length
      invariant all == Digits(v, base, upper) + Reversed(str[at..p])
      invariant forall k :: 0 <= k < at || p <= k < str.Length ==> str[k] == old(str[k])
    {
      ghost var before, was := str[at..p], v;
      v := PutDigit(v, str, p, base, upper);
      Digits1(was, base, upper);
      MoveLast(all, Digits(v, base, upper), str[p], before);
      assert str[at..p + 1] == before + [str[p]];
      p := p + 1;
    }
  }

  /** The in-place reversal. */
  method ReverseRange(str: array<char>, at: nat, end: nat)
    requires at < end <= str.Length
    modifies str
    ensures str[at..end] == Reversed(old(str[at..end]))
    ensures forall k :: 0 <= k < at || end <= k < str.Length ==> str[k] == old(str[k])
  {
    var i, j := at, end - 1;
    while i < j
      invariant at <= i && j < end && i + j == at + end - 1 && i <= j + 1
      invariant forall k :: at <= k < i || j < k < end ==> str[k] == old(str[at + end - 1 - k])
      invariant forall k :: i <= k <= j || 0 <= k < at || end <= k < str.Length ==> str[k] == old(str[k])
    {
      str[i], str[j] := str[j], str[i];
      i, j := i + 1, j - 1;
    }
    ghost var s := old(str[at..end]);
    forall k | 0 <= k < end - at ensures str[at..end][k] == Reversed(s)[k] {
      assert s[|s| - 1 - k] == old(str[at + end - 1 - (at + k)]);
    }
  }

  /** itoa */
  method RunItoa(value: int32, str: array<char>, base: Base) returns (end: nat)
    requires (base == 10 ==> value > -0x8000_0000) && |Itoa(value, base)| < str.Length
    modifies str
    ensures end == |Itoa(value, base)| && str[..end] == Itoa(value, base) && str[end] == '\0'
  {
    if value < 0 && base == 10 {
      str[0] := '-';
      end := RunUlltoa(-value, str, 1, 10, false);
      assert str[..end] == [str[0]] + str[1..end];
    } else {
      end := RunUlltoa(if value < 0 then value + 0x1_0000_0000 else value, str, 0, base, false);
      assert str[..end] == str[0..end];
    }
  }

  /** The digit loop of strtol and atoi; None once a step overflows. */
  method ReadDigits(s: string, start: nat, base: nat, max: int) returns (v: Option<int>, end: nat)
    requires start <= |s| && 1 <= base && 0 <= max
    ensures end == SkipDigits(s, start, base) && v == Bounded(Value(s[start..end], base), max)
  {
    v, end := Some(0), start;
    ghost var k, t, w: nat := SkipDigits(s, start, base), "", 0;
    while end < |s| && IsDigit(s[end], base)
      invariant start <= end <= k && SkipDigits(s, end, base) == k
      invariant t == s[start..end] && AllDigits(t, base) && w == Value(t, base) && v == Bounded(w, max)
      decreases |s| - end
    {
      ghost var was := w;
      v, w := Accumulate(v, base, DigitValue(s[end]).value, max, w);
      DigitTurn(t, s[end], base, was, w);
      t := t + [s[end]];
      end := end + 1;
    }
  }

  lemma DigitTurn(t: string, c: char, base: nat, w: nat, w': nat)
    requires AllDigits(t, base) && IsDigit(c, base) && w == Value(t, base) && w' == w * base + DigitValue(c).value
    ensures AllDigits(t + [c], base) && w' == Value(t + [c], base)
  {
    ValueSnoc(t, c, base);
  }

  /** One step of the sum, in arithmetic that ends at max. */
  method Accumulate(v: Option<int>, base: nat, d: nat, max: int, ghost w: nat) returns (r: Option<int>, ghost w': nat)
    requires 1 <= base && v == Bounded(w, max)
    ensures w' == w * base + d && r == Bounded(w', max)
  {
    w' := w * base + d;
    assert w * base >= w;
    r := if v.Some? && v.value * base + d <= max then Some(v.value * base + d) else None;
  }

  /** The base and the first digit. */
  method ReadBase(s: string, start: nat, base: nat) returns (b: nat, i: nat)
    requires start <= |s|
    ensures (b, i) == BaseAndStart(s, start, base)
  {
    b, i := base, start;
    if b == 0 {
      if HexPrefix(s, i) {
        b := 16;
        i := i + 2;
      } else if i < |s| && s[i] == '0' {
        b := 8;
      } else {
        b := 10;
      }
    } else if b == 16 && HexPrefix(s, i) {
      i := i + 2;
    }
  }

  method RunStrtol(s: string, base: nat) returns (v: Option<int>, end: nat)
    ensures Parsed(v, end) == Strtol(s, base)
  {
    var i := 0;
    while i < |s| && Blank(s[i])
      invariant i <= |s| && SkipBlanks(s, i) == SkipBlanks(s, 0)
    {
      i := i + 1;
    }
    var negative := false;
    if i < |s| && s[i] == '-' {
      negative := true;
      i := i + 1;
    } else if i < |s| && s[i] == '+' {
      i := i + 1;
    }
    var b, start := ReadBase(s, i, base);
    v, end := ReadDigits(s, start, b, LONG_MAX);
    if negative && v.Some? { v := Some(-v.value); }
  }

  method RunAtoi(s: string) returns (v: Option<int>)
    ensures v == Atoi(s)
  {
    var i := 0;
    while i < |s| && (s[i] == ' ' || s[i] == '\t')
      invariant i <= |s| && SkipSpaces(s, i) == SkipSpaces(s, 0)
    {
      i := i + 1;
    }
    var negative := false;
    if i < |s| && s[i] == '-' {
      negative := true;
      i := i + 1;
    }
    var end;
    v, end := ReadDigits(s, i, 10, INT_MAX);
    if negative && v.Some? { v := Some(-v.value); }
  }
}
