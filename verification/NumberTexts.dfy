/** What strtol and atoi make of any text: blanks, a sign, a prefix, digits, and the rest. */
module NumberTexts {
  import opened Bytes
  import opened Numbers

  /** The parts of a text as strtol takes it in: as many blanks as there are, at most one sign, a
      hexadecimal prefix where one is allowed, as many digits of the base as follow. */
  ghost predicate Parts(blanks: string, sign: string, prefix: string, digits: string, rest: string, base: nat, read: nat) {
    var tail := digits + rest;
    && (forall i :: 0 <= i < |blanks| ==> Blank(blanks[i]))
    && (sign == "" || sign == "-" || sign == "+")
    && (if prefix == "" then
          && !((base == 0 || base == 16) && |tail| >= 2 && tail[0] == '0' && (tail[1] == 'x' || tail[1] == 'X'))
          && read == (if base != 0 then base else if tail != "" && tail[0] == '0' then 8 else 10)
          && (sign == "" && tail != "" ==> !Blank(tail[0]) && tail[0] != '+' && tail[0] != '-')
        else (prefix == "0x" || prefix == "0X") && (base == 0 || base == 16) && read == 16)
    && AllDigits(digits, read) && (rest == "" || !IsDigit(rest[0], read))
  }

  /** Where the parts lie in the text. */
  lemma Slices(s: string, a: string, b: string, c: string, d: string, e: string, g: nat, p: nat, j: nat)
    requires s == a + b + c + d + e && g == |a| + |b| && p == g + |c| && j == p + |d|
    ensures j <= |s| && s[..|a|] == a && s[|a|..g] == b && s[g..p] == c && s[p..j] == d && s[j..] == e && s[p..] == d + e
  {}

  lemma BlanksEnd(s: string, j: nat)
    requires j <= |s| && (forall k :: 0 <= k < j ==> Blank(s[k])) && (j < |s| ==> !Blank(s[j]))
    ensures SkipBlanks(s, 0) == j
  {}

  lemma DigitsEnd(s: string, i: nat, j: nat, base: nat)
    requires i <= j <= |s| && (forall k :: i <= k < j ==> IsDigit(s[k], base)) && (j < |s| ==> !IsDigit(s[j], base))
    ensures SkipDigits(s, i, base) == j
  {}

  /** The blanks end where the sign, the prefix or the digits begin. */
  lemma BlanksFound(s: string, blanks: string, sign: string, prefix: string, digits: string, rest: string, base: nat, read: nat)
    requires Parts(blanks, sign, prefix, digits, rest, base, read) && s == blanks + sign + prefix + digits + rest
    ensures SkipBlanks(s, 0) == |blanks|
    ensures |blanks| < |s| && (s[|blanks|] == '-' || s[|blanks|] == '+') <==> sign != ""
    ensures |blanks| < |s| && s[|blanks|] == '-' <==> sign == "-"
  {
    var b, g, p := |blanks|, |blanks| + |sign|, |blanks| + |sign| + |prefix|;
    Slices(s, blanks, sign, prefix, digits, rest, g, p, p + |digits|);
    forall k | 0 <= k < b ensures Blank(s[k]) { assert s[k] == blanks[k]; }
    if b < |s| {
      if sign != "" { assert s[b] == sign[0]; }
      else if prefix != "" { assert s[b] == prefix[0]; }
      else { assert s[b] == (digits + rest)[0]; }
    }
    BlanksEnd(s, b);
  }

  /** The prefix is seen, and the base chosen. */
  lemma BaseFound(s: string, blanks: string, sign: string, prefix: string, digits: string, rest: string, base: nat, read: nat, g: nat, p: nat)
    requires Parts(blanks, sign, prefix, digits, rest, base, read) && s == blanks + sign + prefix + digits + rest
    requires g == |blanks| + |sign| && p == g + |prefix|
    ensures BaseAndStart(s, g, base) == (read, p)
  {
    Slices(s, blanks, sign, prefix, digits, rest, g, p, p + |digits|);
    if prefix == "" {
      assert g < |s| ==> s[g] == (digits + rest)[0];
      assert g + 1 < |s| ==> s[g + 1] == (digits + rest)[1];
    } else {
      assert s[g] == prefix[0] && s[g + 1] == prefix[1];
    }
  }

  lemma DigitsFound(s: string, p: nat, j: nat, digits: string, rest: string, read: nat)
    requires j == p + |digits| <= |s| && s[p..j] == digits && s[j..] == rest
    requires AllDigits(digits, read) && (rest == "" || !IsDigit(rest[0], read))
    ensures SkipDigits(s, p, read) == j
  {
    forall k | p <= k < j ensures IsDigit(s[k], read) { assert s[k] == digits[k - p]; }
    if j < |s| { assert s[j] == rest[0]; }
    DigitsEnd(s, p, j, read);
  }

  /** The number the parts stand for: overflow, or the value with its sign. */
  ghost function Denoted(sign: string, v: int, max: int): (r: Option<int>) {
    if v > max then None else Some(if sign == "-" then -v else v)
  }

  lemma ParseReads(s: string, p: nat, j: nat, digits: string, rest: string, read: nat, max: int, sign: string)
    requires j == p + |digits| <= |s| && s[p..j] == digits && s[j..] == rest
    requires AllDigits(digits, read) && (rest == "" || !IsDigit(rest[0], read))
    ensures ParseFrom(s, p, read, max, sign == "-") == Parsed(Denoted(sign, Value(digits, read), max), j)
  {
    DigitsFound(s, p, j, digits, rest, read);
  }

  /** strtol of any text is the value of its digits with its sign, or overflow, and it stops behind them. */
  lemma StrtolReads(s: string, blanks: string, sign: string, prefix: string, digits: string, rest: string, base: nat, read: nat)
    requires Parts(blanks, sign, prefix, digits, rest, base, read) && s == blanks + sign + prefix + digits + rest
    ensures Strtol(s, base) == Parsed(Denoted(sign, Value(digits, read), 0x7FFF_FFFF_FFFF_FFFF), |s| - |rest|)
  {
    var i, g, p := |blanks|, |blanks| + |sign|, |blanks| + |sign| + |prefix|;
    var j := p + |digits|;
    BlanksFound(s, blanks, sign, prefix, digits, rest, base, read);
    BaseFound(s, blanks, sign, prefix, digits, rest, base, read, g, p);
    Slices(s, blanks, sign, prefix, digits, rest, g, p, j);
    ParseReads(s, p, j, digits, rest, read, 0x7FFF_FFFF_FFFF_FFFF, sign);
  }

  /** The same for atoi: spaces and tabs, a minus sign, decimal digits. */
  predicate Space(c: char) { c == ' ' || c == '\t' }

  ghost predicate AtoiParts(blanks: string, sign: string, digits: string, rest: string) {
    && (forall i :: 0 <= i < |blanks| ==> Space(blanks[i]))
    && (sign == "" || sign == "-") && AllDigits(digits, 10) && (rest == "" || !IsDigit(rest[0], 10))
    && (sign == "" && digits + rest != "" ==> !Space((digits + rest)[0]) && (digits + rest)[0] != '-')
  }

  lemma AtoiSlices(s: string, blanks: string, sign: string, digits: string, rest: string)
    requires AtoiParts(blanks, sign, digits, rest) && s == blanks + sign + digits + rest
    ensures SkipSpaces(s, 0) == |blanks| && (|blanks| < |s| && s[|blanks|] == '-' <==> sign == "-")
    ensures var p := |blanks| + |sign|; p + |digits| <= |s| && s[p..p + |digits|] == digits && s[p + |digits|..] == rest
  {
    var b := |blanks|;
    forall k | 0 <= k < b ensures Space(s[k]) { assert s[k] == blanks[k]; }
    if b < |s| { assert s[b] == if sign != "" then sign[0] else (digits + rest)[0]; }
    SpacesEnd(s, b);
  }

  lemma AtoiReads(s: string, blanks: string, sign: string, digits: string, rest: string)
    requires AtoiParts(blanks, sign, digits, rest) && s == blanks + sign + digits + rest
    ensures Atoi(s) == Denoted(sign, Value(digits, 10), 0x7FFF_FFFF)
  {
    AtoiSlices(s, blanks, sign, digits, rest);
    var p := |blanks| + |sign|;
    ParseReads(s, p, p + |digits|, digits, rest, 10, 0x7FFF_FFFF, sign);
  }

  lemma SpacesEnd(s: string, j: nat)
    requires j <= |s| && (forall k :: 0 <= k < j ==> Space(s[k])) && (j < |s| ==> !Space(s[j]))
    ensures SkipSpaces(s, 0) == j
  {}

  // ---------------------------------------------------------------- numerals in disguise

  /** A base, its prefix, and what strtol may be told. */
  predicate Announces(prefix: string, read: Base, base: nat, v: nat) {
    || (prefix == "0x" && read == 16 && (base == 0 || base == 16))
    || (prefix == "" && read == 10 && (base == 10 || (base == 0 && v > 0)))
  }

  lemma NumeralParts(blanks: string, sign: string, prefix: string, v: nat, upper: bool, base: nat, read: Base, d: string)
    requires forall i :: 0 <= i < |blanks| ==> Blank(blanks[i])
    requires sign == "" || sign == "-" || sign == "+"
    requires Announces(prefix, read, base, v) && d == Numeral(v, read, upper)
    ensures Parts(blanks, sign, prefix, d, "", base, read) && Value(d, read) == v
  {
    NumeralDenotes(v, read, upper);
    NoSignNoBlank(d[0], read);
    assert d + "" == d;
  }

  /** A numeral with blanks, a sign, and a prefix that names its base, in that base or in base 0. */
  lemma StrtolReadsNumeral(s: string, blanks: string, sign: string, prefix: string, d: string, v: nat, upper: bool, base: nat, read: Base)
    requires forall i :: 0 <= i < |blanks| ==> Blank(blanks[i])
    requires sign == "" || sign == "-" || sign == "+"
    requires Announces(prefix, read, base, v) && d == Numeral(v, read, upper) && s == blanks + sign + prefix + d
    ensures Strtol(s, base) == Parsed(Denoted(sign, v, 0x7FFF_FFFF_FFFF_FFFF), |s|)
  {
    NumeralParts(blanks, sign, prefix, v, upper, base, read, d);
    assert s == blanks + sign + prefix + d + "";
    StrtolReads(s, blanks, sign, prefix, d, "", base, read);
  }

  /** strtol reads back every itoa: the number itself in base ten, and in the other bases its 32
      bits as an unsigned number. */
  lemma StrtolReadsItoa(v: int32, base: Base)
    ensures Strtol(Itoa(v, base), base).value == Some(if v < 0 && base != 10 then v as int + 0x1_0000_0000 else v)
  {
    var n: int := v;
    if n < 0 && base == 10 {
      var m: nat := -n;
      assert Itoa(v, base) == "" + "-" + "" + Numeral(m, 10, false);
      StrtolReadsNumeral(Itoa(v, base), "", "-", "", Numeral(m, 10, false), m, false, 10, 10);
    } else {
      StrtolReadsUlltoa(if n < 0 then n + 0x1_0000_0000 else n, base, false);
    }
  }
}
